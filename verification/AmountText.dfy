/**
 The text form of a mint amount.  `cosmossdk.io/math.Int` is not part of this
 repository: this is plain decimal text with an optional sign, with the two habits of
 that type the codec depends on, namely that an unset amount prints as "0" and that
 empty text leaves the receiver as it was.
 */
module AmountText {
  import opened Bits
  import opened Wire

  /** A `math.Int`, whose zero value holds no number. */
  datatype Amount = Unset | Set(value: int)

  const MINUS: byte := 45
  const PLUS: byte := 43
  const ZERO: byte := 48

  function PrintNat(n: nat): (t: seq<byte>)
    ensures |t| >= 1
  {
    if n < 10 then [ZERO + n] else PrintNat(n / 10) + [ZERO + n % 10]
  }

  function PrintInt(n: int): (t: seq<byte>)
    ensures |t| >= 1
  {
    if n < 0 then [MINUS] + PrintNat(-n) else PrintNat(n)
  }

  function Print(a: Amount): (t: seq<byte>)
    ensures |t| >= 1
  {
    match a
    case Unset => PrintNat(0)
    case Set(n) => PrintInt(n)
  }

  predicate IsDigit(b: byte) {
    ZERO <= b < ZERO + 10
  }

  /** Decimal digits without a leading zero, so that no other base is meant. */
  predicate IsNatText(t: seq<byte>) {
    && t != []
    && (forall i :: 0 <= i < |t| ==> IsDigit(t[i]))
    && (|t| > 1 ==> t[0] != ZERO)
  }

  function NatValue(t: seq<byte>): nat
    requires forall i :: 0 <= i < |t| ==> IsDigit(t[i])
  {
    if t == [] then 0 else assert IsDigit(t[|t| - 1]); 10 * NatValue(t[..|t| - 1]) + (t[|t| - 1] - ZERO)
  }

  function ParseNat(t: seq<byte>): Option<nat> {
    if IsNatText(t) then Some(NatValue(t)) else None
  }

  function ParseInt(t: seq<byte>): Option<int> {
    if t != [] && (t[0] == MINUS || t[0] == PLUS) then
      match ParseNat(t[1..])
      case None => None
      case Some(n) => if t[0] == MINUS then Some(0 - n) else Some(n)
    else
      match ParseNat(t)
      case None => None
      case Some(n) => Some(n)
  }

  /** `MintAmount.Unmarshal` */
  function Parse(a: Amount, t: seq<byte>): Result<Amount> {
    if t == [] then Ok(a)
    else
      match ParseInt(t)
      case None => Err(BadAmount)
      case Some(n) => Ok(Set(n))
  }

  /** The number an amount stands for once it has been written and read back. */
  function Settle(a: Amount): Amount {
    if a == Unset then Set(0) else a
  }

  lemma {:induction false} PrintNatIsText(n: nat)
    ensures IsNatText(PrintNat(n)) && NatValue(PrintNat(n)) == n
    ensures n > 0 ==> PrintNat(n)[0] != ZERO
  {
    var t := PrintNat(n);
    if n < 10 {
      assert t[..0] == [];
    } else {
      var head := PrintNat(n / 10);
      PrintNatIsText(n / 10);
      assert t[..|t| - 1] == head;
      assert forall i :: 0 <= i < |head| ==> t[i] == head[i];
    }
  }

  /** Every amount reads back, whatever the receiver held. */
  lemma ParsePrint(a: Amount, receiver: Amount)
    ensures Parse(receiver, Print(a)) == Ok(Settle(a))
  {
    var n := if a == Unset then 0 else a.value;
    if n < 0 {
      PrintNatIsText(-n);
      assert Print(a)[1..] == PrintNat(-n);
    } else {
      PrintNatIsText(n);
      assert IsDigit(Print(a)[0]);
    }
  }

  lemma {:induction false} NatTextIsShortest(t: seq<byte>)
    requires IsNatText(t)
    ensures PrintNat(NatValue(t)) == t
    ensures |t| > 1 ==> NatValue(t) >= 10
    ensures t[0] != ZERO ==> NatValue(t) >= 1
    decreases |t|
  {
    var head, last := t[..|t| - 1], t[|t| - 1] - ZERO;
    assert IsDigit(t[|t| - 1]);
    assert t == head + [t[|t| - 1]];
    if |t| > 1 {
      assert forall i :: 0 <= i < |head| ==> IsDigit(head[i]);
      NatTextIsShortest(head);
    } else {
      assert NatValue(head) == 0;
    }
  }

  /** Writing an amount back never takes more text than the plain decimal it was read from. */
  lemma PrintParseShrinks(t: seq<byte>)
    requires ParseInt(t).Some?
    ensures |PrintInt(ParseInt(t).value)| <= |t|
  {
    if t[0] == MINUS || t[0] == PLUS {
      NatTextIsShortest(t[1..]);
    } else {
      NatTextIsShortest(t);
    }
  }

  /** An unset amount is written as "0" and so becomes zero; empty text changes nothing. */
  lemma UnsetPrintsZero(receiver: Amount)
    ensures Print(Unset) == [48] && Settle(Unset) == Set(0)
    ensures Parse(receiver, [48]) == Ok(Set(0))
    ensures Parse(receiver, []) == Ok(receiver)
  {
    ParsePrint(Unset, receiver);
  }

  /** What is read as a number: decimal digits, behind a '-' or '+' or neither, and nothing else. */
  lemma ParseIntExactly(t: seq<byte>)
    ensures IsNatText(t) ==> ParseInt(t) == Some(NatValue(t))
    ensures t != [] && t[0] == 43 && IsNatText(t[1..]) ==> ParseInt(t) == Some(NatValue(t[1..]))
    ensures t != [] && t[0] == 45 && IsNatText(t[1..]) ==> ParseInt(t) == Some(0 - NatValue(t[1..]))
    ensures ParseInt(t).Some? <==> IsNatText(t) || (t != [] && t[0] in {43, 45} && IsNatText(t[1..]))
  {
    assert IsNatText(t) ==> IsDigit(t[0]);
  }

  /** n without its last k decimal digits. */
  function Tens(n: nat, k: nat): nat {
    if k == 0 then n else Tens(n / 10, k - 1)
  }

  /** The text of a number holds its decimal digits, the units last, and no more of them than it has. */
  lemma {:induction false} PrintedDigits(n: nat)
    ensures var t := PrintNat(n);
            && (forall k :: 0 <= k < |t| ==> t[|t| - 1 - k] == 48 + Tens(n, k) % 10)
            && Tens(n, |t|) == 0
            && (|t| > 1 ==> Tens(n, |t| - 1) > 0)
  {
    var t := PrintNat(n);
    if n >= 10 {
      var head := PrintNat(n / 10);
      PrintedDigits(n / 10);
      forall k | 0 <= k < |t| ensures t[|t| - 1 - k] == 48 + Tens(n, k) % 10 {
        if k > 0 {
          assert t[|t| - 1 - k] == head[|head| - 1 - (k - 1)];
        }
      }
    } else {
      assert Tens(n, 1) == 0;
    }
  }
}
