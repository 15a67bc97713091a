# A verified model of the fixedmint module

The fixedmint module of the Bluechip chain mints a fixed reward every block.  Its three
parameters (denomination, amount, switch) travel and are stored as protobuf bytes, so
what the chain mints rests on a hand-readable printer and parser that must undo each
other.  This project models that codec, the keeper on top of it and the preparation of a
zero-height export, and proves what they promise for every byte string, every record and
every run.

| file | what it models |
|---|---|
| `Bits.dfy` | Go's `uint64`, `int` and `int32`, with wrap-around and bit operators written out bit by bit |
| `Varint.dfy` | base 128 varints: the backward encoder, `sov`, the decoding loop |
| `Skipper.dfy`, `Grammar.dfy` | the record skipper with its depth counter, and the record grammar as trees |
| `Fields.dfy`, `FieldLaws.dfy` | one pass of a generated `Unmarshal`; decoding as a fold; laws for every message |
| `Buffer.dfy` | filling a buffer backwards |
| `AmountText.dfy` | the decimal text of a mint amount |
| `Params.dfy`, `ParamsLaws.dfy` | the `Params` message |
| `Messages.dfy`, `MessageLaws.dfy` | `MsgUpdateParams`, its response, `GenesisState` |
| `Pulsar.dfy`, `PulsarLaws.dfy` | the second codec of `Params`, which keeps unknown fields |
| `Keeper.dfy` | validation, the bank as the keeper uses it, the keeper over its byte store |
| `Runs.dfy` | runs of genesis, blocks, updates, queries, exports and transfers |
| `ZeroHeight.dfy` | the donation loop and the staking loops of a zero-height export |

Code that changes state is a class or a method with a loop, proved against a function of
its inputs or of the old state; the promises are then lemmas about those functions.  The
wire format is that of the Protocol Buffers Encoding guide, sections "Base 128 Varints",
"Length-Delimited Records", "Last One Wins" and "Groups".

How to read the model:

- The generated files repeat one parser.  Here the loop body is one method,
  `Fields.NextField`, driven by a table of the message's known fields, and each message
  has its own loop with its own assignments.  `skipParams`, `skipTx` and `skipGenesis`
  are one method, and so are the three varint encoders.
- A slice `dAtA[:n]` handed down to be written is the array with the index `n`, so
  nested writing happens in the parent's array.  A slice that is only read is a sequence.
- Lengths are at most the largest Go `int`; the `Fits` and `MAX_INT` conditions say that
  and nothing else.  `pos` is the absolute index of a byte.  It decides whether an
  over-long length is reported as negative or as a short buffer, and nothing else
  (`FieldLaws.DecodePosition`).  Joining two buffers may therefore change that report, as
  in `ParamsLaws.LengthReportExample`; `FieldLaws.JoinedExactlyWhen` says when it does not.
- A failed `Unmarshal` leaves in the receiver what it had read; the model says exactly what.
- `math.Int` is not part of this repository.  The model relies on three habits of it: it
  prints decimal text, an unset value prints as "0", and empty text leaves the receiver as
  it was.  Hence an unset amount reads back as zero, and round trips are exact for every
  record whose amount is set.
- The two codecs of `Params` do not agree on every accepted input: an empty amount record
  erases the text in one and leaves the number in the other.
  `PulsarLaws.AmountsAgreeExactlyWhen` says when they do, `ErasedAmountExample` shows when not.
- x/fixedmint/types/genesis_test.go:21-28 expects an empty genesis state to be valid; the
  code rejects an empty denomination, and the model follows the code.

## Model

| member | source | states |
|---|---|---|
| `Varint.EncodeVarint` | x/fixedmint/types/params.pb.go:197-207 | writes exactly the encoding of v, ending just before the offset, and touches no other byte |
| `Varint.SovIsLength` | x/fixedmint/types/params.pb.go:226-228 | the bit-length formula is the true byte count of the encoding |
| `Varint.SovIsLeast` | x/fixedmint/types/params.pb.go:226-228 | `sov(v)` is the least n >= 1 with v < 2^(7n) |
| `Varint.ReadVarint` | x/fixedmint/types/params.pb.go:238-251 | the shift-and-or loop computes the base-128 value modulo 2^64 of the bytes up to the first one below 0x80, or reports overflow after ten bytes or a short buffer |
| `Varint.RoundTrip` | x/fixedmint/types/params.pb.go:197-251 | every uint64 reads back, consuming exactly its encoding, whatever follows |
| `Varint.Minimal` | x/fixedmint/types/params.pb.go:226-251 | no byte string shorter than `sov(v)` decodes to v |
| `Varint.CanonicalExactlyWhen` | x/fixedmint/types/params.pb.go:197-251 | a varint the decoder reads is the encoder's own if and only if its last byte is not a superfluous zero and a tenth byte, if there is one, is 1 |
| `Varint.ReadRefusedExactlyWhen` | x/fixedmint/types/params.pb.go:238-251 | overflow exactly on ten continuation bytes, a short buffer exactly when it ends within fewer, no other error |
| `Varint.TenthByteKeepsOneBit` | x/fixedmint/types/params.pb.go:238-251 | the value is the sum of base-128 digits; of a tenth byte only the lowest bit survives |
| `Varint.OverlongExample` | x/fixedmint/types/params.pb.go:238-251 | zero in two bytes is accepted, so decoding is not injective |
| `Skipper.NextToken` | x/fixedmint/types/params.pb.go:372-436 | the end of a payload by wire type, under wrapping addition, for every buffer and start |
| `Skipper.SkipRecord` | x/fixedmint/types/params.pb.go:368-445 | the skipper's loop with wrapping index and depth counter answers what its recursive form does, for every byte string |
| `Grammar.SkipsRecord` | x/fixedmint/types/params.pb.go:368-445 | any record, nested to any depth, is passed over whole inside a group and stopped after outside one |
| `Grammar.SkipFindsRecord` | x/fixedmint/types/params.pb.go:368-445 | whatever the skipper consumes within the buffer is the bytes of a record tree |
| `Grammar.SkipRecognisesRecords` | x/fixedmint/types/params.pb.go:368-445 | it answers n within the buffer if and only if the first n bytes are one record of the grammar |
| `Grammar.SkipRefusals` | x/fixedmint/types/params.pb.go:368-445 | which error the skipper gives: broken varints, an end group at depth zero, wire types 6 and 7, and payloads that run past the end |
| `Grammar.RecordsArePrefixFree` | x/fixedmint/types/tx.pb.go:515-592 | no record is a proper prefix of another, so input splits into records in one way |
| `Fields.NextTag` | x/fixedmint/types/params.pb.go:236-259 | the tag checks, in order: varint, end group, field number as a positive int32 |
| `Fields.NextSpan` | x/fixedmint/types/params.pb.go:265-292 | a length and its bounds under wrapping addition: within the buffer, or the error the sign checks give |
| `Fields.NextUnknown` | x/fixedmint/types/params.pb.go:347-360 | the default branch: the size of the unknown record, never past the end |
| `Fields.NextField` | x/fixedmint/types/params.pb.go:235-361 | one pass of the loop, total on every buffer: the field with its number, payload or value and its size as told by `TagExactly`, `DelimitedReads`, `NumberReads` and `StrangeReads`; at least one byte is consumed when it succeeds |
| `FieldLaws.SpanFits` | x/fixedmint/types/params.pb.go:280-290 | a length is accepted exactly when its bytes are there; otherwise the side of the largest int on which it would end decides the error |
| `FieldLaws.UnknownFits` | x/fixedmint/types/params.pb.go:349-359 | the same for an unknown record that the skipper follows past the end |
| `FieldLaws.FieldPosition` | x/fixedmint/types/params.pb.go:235-361 | a field is read alike at every position, unless it announces more bytes than there are; its error is then fixed by where it would end |
| `FieldLaws.DecodePosition` | x/fixedmint/types/params.pb.go:232-367 | the same for a whole buffer: the receiver never depends on the position, the error only through the reach of the field at which decoding runs out of bytes |
| `FieldLaws.PositionsAgreeExactlyWhen` | x/fixedmint/types/params.pb.go:232-367 | a buffer decodes alike at two positions, error included, if and only if no such field ends on different sides of the largest int |
| `FieldLaws.FieldLocal` | x/fixedmint/types/params.pb.go:235-361 | reading a field depends on no byte after it |
| `FieldLaws.TagExactly` | x/fixedmint/types/params.pb.go:252-259 | the field number of every tag is the wire value divided by 8, modulo 2^32; an end group is refused first, then a number outside 1 to 2^31 - 1 |
| `FieldLaws.DelimitedReads` | x/fixedmint/types/params.pb.go:261-292 | any tag of a text field, any form of its length and the payload are read as exactly that payload |
| `FieldLaws.NumberReads` | x/fixedmint/types/params.pb.go:327-346 | any tag of a number field and any varint are read as that number, zero included |
| `FieldLaws.StrangeReads` | x/fixedmint/types/params.pb.go:347-360 | a whole record with a number the message does not know is one unknown field holding its bytes |
| `FieldLaws.HeadRefusals` | x/fixedmint/types/params.pb.go:235-361 | which error a field that cannot be begun gives, and that the receiver is then as it was |
| `FieldLaws.DecodeConcat` | x/fixedmint/types/tx.pb.go:350-464 | for every message, decoding a ++ b is decoding a, then b into the result |
| `FieldLaws.JoinedExactlyWhen` | x/fixedmint/types/tx.pb.go:350-464 | for every message, one call on a ++ b equals the call on b after the call on a, error included, if and only if no field of b runs past the largest int merely for standing behind a |
| `FieldLaws.FieldIsRecord` | x/fixedmint/types/params.pb.go:235-445 | a field read under any message takes exactly the bytes the skipper takes from the same tag |
| `FieldLaws.SchemasAgreeOnSize` | x/fixedmint/types/params.pb.go:235-361 | known to one message and unknown to another, a field has one size, so the rest never loses step |
| `FieldLaws.AcceptsExactlyRecords` | x/fixedmint/types/tx.pb.go:465-514 | a message that refuses no field accepts exactly the sequences of grammar records whose known fields have their wire types |
| `FieldLaws.AcceptsExactly` | x/fixedmint/types/tx.pb.go:350-464 | a message that refuses some fields accepts exactly those sequences of which it refuses none |
| `FieldLaws.TruncationIsRefused` | x/fixedmint/types/params.pb.go:232-367 | no message accepts a buffer that ends inside a record |
| `FieldLaws.FieldNumberTruncates` | x/fixedmint/types/params.pb.go:252-253 | two tags with one wire type and field numbers equal modulo 2^32 are read as the same tag, or refused alike |
| `FieldLaws.AliasedFieldReads` | x/fixedmint/types/params.pb.go:252-361 | a known field is the same field, with the same payload, under every such tag |
| `ParamsLaws.FieldNumberExample` | x/fixedmint/types/params.pb.go:252-292 | a field numbered 2^32 + 1 sets the denomination |
| `Buffer.PutHeader` | x/fixedmint/types/tx.pb.go:272-275 | a length and tag land just before bytes already written, which they leave in place |
| `Buffer.PutDelimited` | x/fixedmint/types/params.pb.go:187-193 | a whole field lands just before the free index; every byte below is untouched |
| `AmountText.ParsePrint` | x/fixedmint/types/params.pb.go:178-182 | every amount reads back from its text, an unset one as zero |
| `AmountText.UnsetPrintsZero` | x/fixedmint/types/params.pb.go:178-182 | an unset amount is the text "0", which reads as zero; empty text leaves the receiver |
| `AmountText.ParseIntExactly` | x/fixedmint/types/params.pb.go:323-325 | the number read is that of the digits, negated behind a minus; a text is read if and only if it is decimal digits without a leading zero, behind at most one sign |
| `AmountText.PrintedDigits` | x/fixedmint/types/params.pb.go:178-182 | the text of a number is its decimal digits, the units last, and exactly as many as it has |
| `AmountText.PrintParseShrinks` | x/fixedmint/types/params.pb.go:323-325 | for plain decimal text, re-printing a parsed amount is never longer than the text |
| `ParamsCodec.Params.Size` | x/fixedmint/types/params.pb.go:208-224 | the exact length of the encoding |
| `ParamsCodec.Params.MarshalToSizedBuffer` | x/fixedmint/types/params.pb.go:162-195 | fills exactly the last `Size()` bytes of the slice with the encoding; bytes before and after are untouched |
| `ParamsCodec.Params.Marshal` | x/fixedmint/types/params.pb.go:147-155 | a fresh buffer that is the encoding and nothing more |
| `ParamsCodec.Params.Unmarshal` | x/fixedmint/types/params.pb.go:232-367 | total on every buffer; receiver and error are those of decoding field by field, failures included |
| `ParamsLaws.DenomFieldSets` | x/fixedmint/types/params.pb.go:261-292 | a field 1 in front of any rest sets the denomination, whatever the receiver held, and nothing else |
| `ParamsLaws.AmountFieldSets` | x/fixedmint/types/params.pb.go:293-326 | a field 2 sets the amount its text says, leaves everything when empty, and fails with the receiver as it was when no number |
| `ParamsLaws.FlagFieldSets` | x/fixedmint/types/params.pb.go:327-346 | a field 3 turns minting on or off as its value is non-zero or zero, whatever the receiver held |
| `ParamsLaws.StrangeFieldIgnored` | x/fixedmint/types/params.pb.go:347-360 | a whole record with a number other than 1, 2 and 3 changes nothing |
| `ParamsLaws.EncodedFields` | x/fixedmint/types/params.pb.go:162-195 | the fields written, in order: a non-empty denomination, the amount always, the flag only when true |
| `ParamsLaws.UnmarshalMarshal` | x/fixedmint/types/params.pb.go:147-195 | reading a written record into any receiver overlays it: empty denom and false leave the receiver's values |
| `ParamsLaws.RoundTrip` | x/fixedmint/types/params.pb.go:147-367 | into a zero receiver every record reads back; it is unchanged if and only if its amount was set |
| `ParamsLaws.EncodingExample` | x/fixedmint/types/params.pb.go:162-195 | the tags, lengths and field order of one record written out byte by byte |
| `ParamsLaws.EncodingsEqualIffEqual` | x/fixedmint/types/params.pb.go:117-146 | two records have the same bytes exactly when `Equal` holds of them |
| `ParamsLaws.ReencodingIsShort` | x/fixedmint/types/params.pb.go:208-224 | re-encoding an accepted buffer whose amount texts are plain decimal grows it by at most three bytes |
| `ParamsLaws.ReencodingIsCanonical` | x/fixedmint/types/params.pb.go:147-367 | decode then encode is idempotent on every accepted buffer whose amount texts are plain decimal, and keeps its meaning |
| `ParamsLaws.Concatenation` | x/fixedmint/types/params.pb.go:232-367 | `Unmarshal` of a ++ b is `Unmarshal` of b into the result for a: always in receiver and success, and in the error if and only if no length of b is carried past the largest int by standing behind a |
| `ParamsLaws.LengthReportExample` | x/fixedmint/types/params.pb.go:284-290 | two buffers for which the error differs: alone the second is short, behind the first its length is negative |
| `ParamsLaws.AppendedRecordWins` | x/fixedmint/types/params.pb.go:232-367 | a record appended to an accepted buffer overrides it |
| `Messages.MsgUpdateParams.Size` | x/fixedmint/types/tx.pb.go:320-333 | the exact length of the nested encoding |
| `Messages.MsgUpdateParams.MarshalToSizedBuffer` | x/fixedmint/types/tx.pb.go:261-284 | exactly the last `Size()` bytes of the free part change; they hold the authority field, if any, and after it the nested record |
| `Messages.MsgUpdateParams.Marshal` | x/fixedmint/types/tx.pb.go:246-254 | a fresh buffer that is the encoding and nothing more |
| `Messages.MsgUpdateParams.Unmarshal` | x/fixedmint/types/tx.pb.go:350-464 | total; a nested record is merged into the message's own `Params`, also when it fails half way |
| `MessageLaws.AuthorityFieldSets` | x/fixedmint/types/tx.pb.go:379-410 | a field 1 in front of any rest sets the authority and nothing else |
| `MessageLaws.ParamsFieldMerges` | x/fixedmint/types/tx.pb.go:411-443 | a field 2 decodes into the `Params` the message holds, keeping what it read when it fails |
| `MessageLaws.StrangeFieldIgnored` | x/fixedmint/types/tx.pb.go:444-457 | a whole record with a number other than 1 and 2 changes nothing |
| `MessageLaws.MsgEncodedFields` | x/fixedmint/types/tx.pb.go:261-284 | the fields written, in order: a non-empty authority, then the nested record always |
| `MessageLaws.EncodingExamples` | x/fixedmint/types/tx.pb.go:261-284 | one message and one genesis state written out byte by byte |
| `Messages.GenesisState.Size` | x/fixedmint/types/genesis.pb.go:142-151 | the exact length of the nested encoding |
| `Messages.GenesisState.MarshalToSizedBuffer` | x/fixedmint/types/genesis.pb.go:113-129 | exact backward fill of the nested record |
| `Messages.GenesisState.Marshal` | x/fixedmint/types/genesis.pb.go:98-106 | a fresh buffer that is the encoding and nothing more |
| `Messages.GenesisState.Unmarshal` | x/fixedmint/types/genesis.pb.go:159-241 | total; a nested record is merged into the state's own `Params`, as `GenesisFieldMerges` and `GenesisRepeatedParamsMerge` say, also when it fails half way |
| `MessageLaws.GenesisFieldMerges` | x/fixedmint/types/genesis.pb.go:188-220 | a field 1 decodes into the `Params` the state holds, keeping what it read when it fails |
| `MessageLaws.GenesisStrangeFieldIgnored` | x/fixedmint/types/genesis.pb.go:221-234 | a whole record with a number other than 1 changes nothing |
| `MessageLaws.GenesisEncodedFields` | x/fixedmint/types/genesis.pb.go:113-129 | the one field written is the nested record |
| `Messages.MsgUpdateParamsResponse.Unmarshal` | x/fixedmint/types/tx.pb.go:465-514 | accepts exactly the sequences of whole records of the grammar |
| `MessageLaws.MsgUnmarshalMarshal` | x/fixedmint/types/tx.pb.go:246-464 | reading a written message into any receiver merges it there |
| `MessageLaws.GenesisUnmarshalMarshal` | x/fixedmint/types/genesis.pb.go:98-241 | reading a written genesis state into any receiver overlays the receiver's record |
| `MessageLaws.MsgRoundTrip` | x/fixedmint/types/tx.pb.go:246-464 | into a zero message every message reads back, unchanged if and only if its amount was set |
| `MessageLaws.GenesisRoundTrip` | x/fixedmint/types/genesis.pb.go:98-241 | the same for the genesis state |
| `MessageLaws.MsgConcatenation` | x/fixedmint/types/tx.pb.go:350-464 | last one wins, one level up, with the same exact condition on the error |
| `MessageLaws.GenesisConcatenation` | x/fixedmint/types/genesis.pb.go:159-241 | last one wins for the genesis state, with the same exact condition on the error |
| `MessageLaws.RepeatedParamsMerge` | x/fixedmint/types/tx.pb.go:411-443 | two `params` fields in a row act as one field with the joined payload, the error included under the same exact condition |
| `MessageLaws.GenesisRepeatedParamsMerge` | x/fixedmint/types/genesis.pb.go:188-220 | the same for two `params` fields of a genesis state |
| `MessageLaws.MsgAccepts` | x/fixedmint/types/tx.pb.go:350-464 | the exact language of the message: whole records with suitable tags, each nested record acceptable by itself, amount texts plain decimal |
| `MessageLaws.GenesisAccepts` | x/fixedmint/types/genesis.pb.go:159-241 | the same for the genesis state |
| `PulsarCodec.Params.Size` | api/bluechipchain/fixedmint/params.pulsar.go:311-342 | the exact length, unknown fields included |
| `PulsarCodec.Params.Marshal` | api/bluechipchain/fixedmint/params.pulsar.go:344-397 | appends the known fields in order, then the unknown bytes, to the caller's buffer |
| `PulsarCodec.Params.Unmarshal` | api/bluechipchain/fixedmint/params.pulsar.go:398-544 | total; unknown records are kept or discarded as the option says |
| `PulsarLaws.TextFieldSets` | api/bluechipchain/fixedmint/params.pulsar.go:437-500 | a field 1 or 2 in front of any rest sets that text and nothing else, an empty one included |
| `PulsarLaws.FlagFieldSets` | api/bluechipchain/fixedmint/params.pulsar.go:501-520 | a field 3 sets the flag to whether its value is non-zero |
| `PulsarLaws.StrangeFieldKept` | api/bluechipchain/fixedmint/params.pulsar.go:521-536 | a whole record with another number goes behind the unknown bytes, or nowhere under the discard option |
| `PulsarLaws.EncodedFields` | api/bluechipchain/fixedmint/params.pulsar.go:344-397 | the fields written, in order, each only when not empty, and the unknown bytes behind them |
| `PulsarLaws.EncodingExamples` | api/bluechipchain/fixedmint/params.pulsar.go:360-387 | the zero message takes no bytes; one message with unknown bytes written out |
| `PulsarLaws.UnknownFieldsStayRecords` | api/bluechipchain/fixedmint/params.pulsar.go:521-537 | `unknownFields` is always a concatenation of whole unknown records, whether or not decoding succeeds |
| `PulsarLaws.UnknownsAppended` | api/bluechipchain/fixedmint/params.pulsar.go:533-535 | exactly the unknown records of the input are appended, in arrival order |
| `PulsarLaws.DiscardOnlyDropsUnknown` | api/bluechipchain/fixedmint/params.pulsar.go:533-535 | the discard option changes nothing but `unknownFields` |
| `PulsarLaws.PulsarRoundTrip` | api/bluechipchain/fixedmint/params.pulsar.go:344-544 | a message survives the round trip, unknown bytes included, if and only if those are whole unknown records |
| `PulsarLaws.EncodersAgree` | x/fixedmint/types/params.pb.go:162-195 | both codecs write the same bytes for every record |
| `PulsarLaws.MarshalBoth` | api/bluechipchain/fixedmint/params.pulsar.go:344-397 | the two `Marshal` methods return the same bytes for one record |
| `PulsarLaws.DecodersAgree` | api/bluechipchain/fixedmint/params.pulsar.go:398-544 | with amount texts read as plain decimal, the first codec accepts a buffer exactly when the second does and every amount text is empty or a number; denom and flag then agree, and each amount is characterised |
| `PulsarLaws.PulsarAccepts` | api/bluechipchain/fixedmint/params.pulsar.go:398-544 | the exact language of the second codec |
| `PulsarLaws.ParamsAccepts` | x/fixedmint/types/params.pb.go:232-367 | the exact language of the first codec, with amount texts that are empty or plain decimal |
| `PulsarLaws.AmountsAgreeExactlyWhen` | api/bluechipchain/fixedmint/params.pulsar.go:499-500 | on a buffer whose amount texts are plain decimal, the decoded amounts agree if and only if the last amount record holds text or none does |
| `PulsarLaws.ErasedAmountExample` | x/fixedmint/types/params.pb.go:323-326 | a buffer on which the two decoded amounts differ |
| `Keeper.ValidExactlyWhen` | x/fixedmint/types/params.go:49-71 | when `Validate` passes, and exactly when it gives each of its refusals: an empty denomination first, then a nil amount (a nil dereference in the sign check), then a negative one; an empty genesis state is refused for its denomination |
| `Keeper.Keeper.GetParams` | x/fixedmint/keeper/params.go:13-22 | the record the stored bytes decode to, the zero record when nothing is stored |
| `Keeper.Keeper.SetParams` | x/fixedmint/keeper/params.go:25-34 | overwrites the one key with the record's encoding |
| `Keeper.Keeper.MintFixedBlockReward` | x/fixedmint/keeper/keeper.go:20-42 | exactly when a block skips, pays, fails or panics under the stored parameters, and every supply and balance it leaves in each case |
| `Keeper.RewardAnswers` | x/fixedmint/keeper/keeper.go:20-42 | a block skips if and only if minting is off or the amount zero, fails if and only if a due reward is refused by the bank, pays in full if and only if it is due and not refused, panics in all remaining cases, and leaves the bank accordingly |
| `Keeper.Keeper.UpdateParams` | x/fixedmint/keeper/msg_update_params.go:12-23 | accepts exactly the authority; otherwise the store is unchanged |
| `Keeper.Keeper.InitGenesis` | x/fixedmint/module/genesis.go:11-16 | stores the genesis parameters, unvalidated |
| `Keeper.Keeper.ExportGenesis` | x/fixedmint/module/genesis.go:19-26 | a fresh genesis state whose parameters are the stored ones, not the defaults |
| `Keeper.Bank.MintCoins` | x/fixedmint/types/expected_keepers.go:25 | supply and the module's balance grow by the amount, or nothing changes |
| `Keeper.Bank.SendCoinsFromModuleToModule` | x/fixedmint/types/expected_keepers.go:26 | the amount moves if the sender has it, or nothing changes |
| `Runs.Chain.DeliverBlock` | x/fixedmint/module/module.go:155-157 | a block pays its reward, or leaves bank and store as they were |
| `Runs.Chain.Deliver` | x/fixedmint/keeper/msg_update_params.go:12-23 | each operation on the keeper and bank objects does what the byte machine's step does |
| `Runs.Chain.DeliverAll` | x/fixedmint/module/module.go:155-157 | the keeper and bank objects, driven through any run, do what the byte machine does, a failed block leaving no trace |
| `Runs.StepRefines` | x/fixedmint/keeper/params.go:13-34 | one operation on the byte store matches the same operation on the record |
| `Runs.RunRefines` | x/fixedmint/keeper/keeper.go:20-42 | over every run the byte machine and the record machine answer alike, pay alike, and the stored bytes decode to the record |
| `Runs.Accounting` | x/fixedmint/keeper/keeper.go:20-42 | supply grows by exactly the rewards under the parameters in force at each block, all credited to the fee collector; every other balance, the module's included, moves only by transfers |
| `Runs.StoreAccounting` | x/fixedmint/keeper/keeper.go:20-42 | the same for the keeper's byte store, from an empty one |
| `Runs.ModuleAccountStaysEmpty` | x/fixedmint/keeper/invariants.go:19-30 | over every run of the byte store in which nobody else pays it, an empty module account stays empty |
| `Runs.UnsetOnlyWhenDisabled` | x/fixedmint/keeper/keeper.go:24-26 | an unset amount occurs only with minting disabled |
| `Runs.BlockAnswers` | x/fixedmint/keeper/keeper.go:20-42 | the same answers for a block after every run from a store that decodes, in terms of the parameters then stored; only a paid block changes the bank |
| `Runs.QueriesReportLastSet` | x/fixedmint/keeper/query_params.go:13-20 | after every run a query or an export reports the parameters last set and changes nothing |
| `Runs.UpdateExactlyWhen` | x/fixedmint/keeper/msg_update_params.go:12-23 | an update is taken if and only if the authority sent it; the record then stored, and that nothing else changes |
| `Runs.TransferExactlyWhen` | x/fixedmint/types/expected_keepers.go:26 | a transfer is made if and only if the sender holds the amount; each balance and supply it leaves |
| `Runs.ReachableStoreDecodes` | x/fixedmint/keeper/params.go:15-21 | a reachable store always decodes, and minting never inspects an unset amount |
| `Runs.StoredParamsStayValid` | x/fixedmint/types/params.go:49-71 | if every genesis and every authorised update passed `Validate`, so do the parameters in every later state |
| `Runs.ReachableParamsAreValid` | x/fixedmint/types/params.go:49-71 | the same, read off the stored bytes |
| `Runs.ValidParamsHaltOnlyOnDenom` | x/fixedmint/keeper/keeper.go:24-28 | under valid parameters a block panics exactly when it should pay in a denomination no coin can have |
| `Runs.ReachableBlocksHaltOnlyOnDenom` | x/fixedmint/keeper/keeper.go:20-28 | after a genesis and any validated run, a block panics exactly when it should pay in a denomination no coin can have |
| `Runs.OthersChangeNoParams` | x/fixedmint/keeper/msg_update_params.go:13-15 | over every run without a genesis or an authorised update, not a byte of the store changes and every update is refused |
| `Runs.ParamsAreLastSet` | x/fixedmint/keeper/msg_update_params.go:12-23 | after every run the stored parameters are those of the last genesis or authorised update, or the starting ones |
| `Runs.ExportImport` | x/fixedmint/module/genesis.go:11-26 | a fresh keeper that imports an export answers every later run alike if and only if the exported amount was set |
| `Runs.ExportImportAfterGenesis` | x/fixedmint/module/genesis.go:11-26 | in every state reached after a genesis it does |
| `ZeroHeight.App.DonateOutstanding` | app/export.go:117-141 | on the maps themselves, for distinct visited validators: each entry of the pool is the old one plus the visited validators' own entries; their records end empty and every other record is kept |
| `ZeroHeight.DonationConserves` | app/export.go:124-139 | pool plus all outstanding rewards is unchanged in every denomination, in any visiting order |
| `ZeroHeight.DonationEmpties` | app/export.go:124-139 | exactly the visited validators end with nothing outstanding |
| `ZeroHeight.DonationReachesPool` | app/export.go:132-135 | the pool gains the whole of what the validators had |
| `ZeroHeight.DonationGains` | app/export.go:124-135 | on the maps: each entry of the pool grows by the sum of the distinct visited validators' own entries |
| `ZeroHeight.DonationRecords` | app/export.go:124-139 | on the maps: a visited record ends empty, any other is untouched |
| `ZeroHeight.App.ResetEntries` | app/export.go:169-171 | the inner loop sets every creation height to zero and changes nothing else |
| `ZeroHeight.App.ResetHeights` | app/export.go:168-192 | rewriting every visited record resets each entry in the store, whatever the visiting order |
| `ZeroHeight.App.ResetValidators` | app/export.go:203-219 | rewriting every visited validator resets all of them |
| `ZeroHeight.App.PrepForZeroHeightGenesis` | app/export.go:54-219 | all loops: the donation entry by entry, nothing lost, every validator left with nothing outstanding, every creation height zero with all else kept, and exactly those jailed before or left out of a non-empty list jailed |
| `ZeroHeight.ZeroKeepsRecords` | app/export.go:168-192 | keys, entry count, entry order and every field but the creation height are kept |
| `ZeroHeight.JailedExactlyWhen` | app/export.go:55-70 | a validator ends jailed exactly when it was or when a non-empty list omits its address; nothing else but the unbonding height changes |
| `ZeroHeight.ZeroStakingTwice` | app/export.go:167-219 | running the staking loops twice is running them once |

## Left out

- AmountText.ParsePrint: covers plain decimal text with an optional sign and no leading zero; other number bases, digit separators and the 256-bit bound of `math.Int` are not modelled, as that type is not part of this repository.
- AmountText.PrintParseShrinks: holds for plain decimal text; a text in another base, were it accepted, could be shorter than its decimal form.
- ParamsLaws.ReencodingIsShort: holds for buffers whose amount texts are plain decimal, for the same reason.
- ParamsLaws.ReencodingIsCanonical: its bound on the length of the re-encoding holds for the same buffers.
- PulsarLaws.ParamsAccepts: counts as readable only amount texts that are empty or plain decimal.
- PulsarLaws.DecodersAgree: counts as readable only amount texts that are empty or plain decimal.
- PulsarLaws.AmountsAgreeExactlyWhen: speaks of buffers whose amount texts are plain decimal.
- MessageLaws.MsgAccepts: inherits that reading of amount texts.
- MessageLaws.GenesisAccepts: inherits that reading of amount texts.
- ParamsCodec.Params.Unmarshal: a text that is not a number leaves the amount as it was; what the number library leaves in it is not modelled.
- PulsarCodec.Params.Unmarshal: reads the pulsar runtime's `Sov`, `EncodeVarint` and `Skip` as the `sovParams`, `encodeVarintParams` and `skipParams` of the first codec, since the runtime is not part of this repository.
- Keeper.Keeper.MintFixedBlockReward: the bank is two maps with the effects its call sites rely on; refusals of its own are inputs, and the denomination check of `sdk.NewCoin` is a predicate given to the keeper.
- Runs.Chain.DeliverAll: that a failed block is discarded is the behaviour of the application framework, assumed here.
- ZeroHeight.App.DonateOutstanding: that the distribution hook after a validator's creation resets its outstanding record is assumed; the hook's other records are not modelled.
- ZeroHeight.App.PrepForZeroHeightGenesis: withdrawals of commission and rewards, the delegation hooks, the invariant assertion, address parsing, the unread `counter` and everything from the validator set update on are not modelled.
- `MsgUpdateParams.ValidateBasic` beyond `Params.Validate`: bech32 parsing of the authority.
- `MarshalTo`, `XXX_` wrappers, `String`, getters, reflection accessors and descriptors: plumbing.
- x/fixedmint/types/query.pb.go and the remaining pulsar files: the same codec over other messages.
- `sozParams` and its copies: never called.
- JSON genesis, gRPC, CLI, logging, simulation, application wiring.
