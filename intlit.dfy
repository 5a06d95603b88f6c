/**
 * readint: the digits of an integer literal as an mrb_int, or word that
 * they do not fit (codegen.yarp.c lines 2389-2432).  A leading '+' is
 * skipped; 0-9, a-f and A-F are digits whatever the base; any other
 * character is the "malformed readint input" error.  With neg the result
 * is negated, so MRB_INT_MIN is the one value whose magnitude exceeds
 * MRB_INT_MAX.
 */
module IntLiterals {
  import opened MachineInts
  import opened Wrappers

  const MALFORMED_READINT: string := "malformed readint input"

  datatype IntRead = Read(value: int) | Overflow

  /** The digit a character stands for; the base is not consulted. */
  function DigitOf(c: char): Option<nat> {
    if '0' <= c <= '9' then Some(c as int - '0' as int)
    else if 'a' <= c <= 'f' then Some(c as int - 'a' as int + 10)
    else if 'A' <= c <= 'F' then Some(c as int - 'A' as int + 10)
    else None
  }

  predicate AllDigits(s: string) {
    forall i :: 0 <= i < |s| ==> DigitOf(s[i]).Some?
  }

  /** The number the digits of s denote in base, most significant first. */
  function Value(s: string, base: nat): nat
    requires AllDigits(s)
  {
    if |s| == 0 then 0 else Value(s[..|s| - 1], base) * base + DigitOf(s[|s| - 1]).value
  }

  /** The index of the first character that is not a digit, |s| when there is none. */
  function FirstBad(s: string): (j: nat)
    ensures j <= |s| && AllDigits(s[..j]) && (j < |s| ==> DigitOf(s[j]).None?)
  {
    if |s| == 0 then 0
    else if DigitOf(s[0]).None? then 0
    else
      var j := 1 + FirstBad(s[1..]);
      assert forall i :: 1 <= i < j ==> s[..j][i] == s[1..][..j - 1][i - 1];
      j
  }

  /** The text after an optional leading '+'. */
  function Unsigned(s: string): string {
    if |s| > 0 && s[0] == '+' then s[1..] else s
  }

  /** With neg, a last digit may bring the magnitude to MRB_INT_MAX + 1 without the multiplication overflowing. */
  predicate MinReachable(t: string, base: nat)
    requires AllDigits(t)
  {
    |t| > 0 && Value(t[..|t| - 1], base) * base <= MRB_INT_MAX
  }

  /**
   * What readint promises: an overflow as soon as the digits read so far
   * exceed what an mrb_int holds, the error on a character that is not a
   * digit, and otherwise the value, negated with neg.
   */
  function ReadIntSpec(s: string, base: nat, neg: bool): Result<IntRead> {
    DigitsRead(Unsigned(s), base, neg)
  }

  /** ReadIntSpec on the text after the sign. */
  function DigitsRead(t: string, base: nat, neg: bool): Result<IntRead> {
    var j := FirstBad(t);
    var v := Value(t[..j], base);
    if v > MRB_INT_MAX && !(neg && v == MRB_INT_MAX + 1 && j == |t| && MinReachable(t, base)) then Ok(Overflow)
    else if j < |t| then Fail(MALFORMED_READINT)
    else Ok(Read(if neg then -(v as int) else v))
  }

  /** A value readint reads back is the literal's, and fits in an mrb_int; an overflow is a value that does not. */
  lemma ReadIntSpecMeaning(s: string, base: nat, neg: bool)
    ensures var r := ReadIntSpec(s, base, neg);
            var t := Unsigned(s);
            (r.Ok? && r.value.Read? ==>
               AllDigits(t) && r.value.value == (if neg then -(Value(t, base) as int) else Value(t, base)) && IsMrbInt(r.value.value))
            && (r.Ok? && r.value.Overflow? ==> Value(t[..FirstBad(t)], base) > MRB_INT_MAX)
            && (r.Fail? ==> r.msg == MALFORMED_READINT && exists i :: 0 <= i < |t| && DigitOf(t[i]).None?)
  {
    var t := Unsigned(s);
    var j := FirstBad(t);
    if j == |t| {
      assert t[..j] == t;
    }
  }

  /** Reading digits never makes the number smaller; from a nonzero start each digit multiplies it by at least base. */
  lemma {:induction false} ValueGrows(t: string, a: nat, b: nat, base: nat)
    requires a <= b <= |t| && AllDigits(t[..b]) && base >= 2
    ensures AllDigits(t[..a]) && Value(t[..a], base) <= Value(t[..b], base)
    ensures a < b ==> Value(t[..b], base) >= Value(t[..a], base) * base
    decreases b - a
  {
    assert forall i :: 0 <= i < a ==> t[..a][i] == t[..b][i];
    if a < b {
      assert t[..b][..b - 1] == t[..b - 1];
      assert forall i :: 0 <= i < b - 1 ==> t[..b - 1][i] == t[..b][i];
      ValueGrows(t, a, b - 1, base);
      var x := Value(t[..a], base);
      var y := Value(t[..b - 1], base);
      assert Value(t[..b], base) >= y * base;
      MulAtLeast(x, y, base);
    }
  }

  /** y * base is at least y and, for y at least x, at least x * base. */
  lemma MulAtLeast(x: nat, y: nat, base: nat)
    requires x <= y && base >= 1
    ensures y * base >= y && y * base >= x * base
  {
  }

  /** One more digit on the value read so far. */
  lemma ValueStep(t: string, i: nat, base: nat)
    requires i < |t| && AllDigits(t[..i]) && DigitOf(t[i]).Some?
    ensures AllDigits(t[..i + 1]) && Value(t[..i + 1], base) == Value(t[..i], base) * base + DigitOf(t[i]).value
  {
    assert t[..i + 1][..i] == t[..i];
    assert forall k :: 0 <= k < i ==> t[..i + 1][k] == t[..i][k];
  }

  /**
   * readint: the loop reads digit after digit, multiplying by base, and
   * stops at the first that does not fit.  A magnitude of MRB_INT_MAX + 1
   * with neg is MRB_INT_MIN only when it is the last digit.
   */
  method ReadInt(s: string, base: nat, neg: bool) returns (r: Result<IntRead>)
    requires 2 <= base <= 16
    ensures r == ReadIntSpec(s, base, neg)
  {
    var t := if |s| > 0 && s[0] == '+' then s[1..] else s;
    var result := 0;
    var i := 0;
    while i < |t|
      invariant 0 <= i <= |t| && AllDigits(t[..i]) && result == Value(t[..i], base) && result <= MRB_INT_MAX
    {
      var d := DigitOf(t[i]);
      if d.None? {
        assert FirstBad(t) == i by { FirstBadAt(t, i); }
        r := Fail(MALFORMED_READINT);
        return;
      }
      ValueStep(t, i, base);
      if result * base > MRB_INT_MAX {
        OverflowIn(t, i, base, neg);
        return Ok(Overflow);
      }
      var tmp := result * base + d.value;
      if neg && tmp == MRB_INT_MAX + 1 && i + 1 == |t| {
        assert t[..i + 1] == t && t[..|t| - 1] == t[..i];
        assert FirstBad(t) == |t| by { FirstBadAt(t, |t|); }
        return Ok(Read(MRB_INT_MIN));
      }
      if tmp > MRB_INT_MAX {
        OverflowIn(t, i, base, neg);
        return Ok(Overflow);
      }
      result := tmp;
      i := i + 1;
    }
    assert t[..i] == t;
    assert FirstBad(t) == |t| by { FirstBadAt(t, |t|); }
    r := Ok(Read(if neg then -result else result));
  }

  /** The first non-digit is the first non-digit. */
  lemma {:induction false} FirstBadAt(t: string, i: nat)
    requires i <= |t| && AllDigits(t[..i]) && (i < |t| ==> DigitOf(t[i]).None?)
    ensures FirstBad(t) == i
    decreases i
  {
    if i > 0 {
      assert DigitOf(t[..i][0]).Some?;
      assert t[1..][..i - 1] == t[..i][1..];
      FirstBadAt(t[1..], i - 1);
    }
  }

  /**
   * Digits up to i + 1 that already exceed MRB_INT_MAX are an overflow,
   * unless with neg the last digit makes the magnitude exactly
   * MRB_INT_MAX + 1 without the multiplication overflowing.
   */
  lemma OverflowIn(t: string, i: nat, base: nat, neg: bool)
    requires 2 <= base
    requires i < |t| && AllDigits(t[..i + 1]) && Value(t[..i], base) <= MRB_INT_MAX
    requires Value(t[..i + 1], base) > MRB_INT_MAX
    requires neg && Value(t[..i + 1], base) == MRB_INT_MAX + 1 && i + 1 == |t| ==> Value(t[..i], base) * base > MRB_INT_MAX
    ensures DigitsRead(t, base, neg) == Ok(Overflow)
  {
    var j := FirstBad(t);
    assert forall k :: 0 <= k < i + 1 ==> t[..i + 1][k] == t[k];
    ValueGrows(t, i + 1, j, base);
    if i + 1 == |t| {
      assert t[..|t| - 1] == t[..i];
    }
  }

  /**
   * readint as written: with neg, a magnitude of exactly MRB_INT_MAX + 1
   * returns MRB_INT_MIN at once, whatever digits follow.
   */
  function ReadIntAsWritten(s: string, base: nat, neg: bool): Result<IntRead> {
    ReadIntLoop(Unsigned(s), 0, 0, base, neg)
  }

  /** The loop of readint as written, from digit i with result read so far. */
  function ReadIntLoop(t: string, i: nat, result: int, base: nat, neg: bool): Result<IntRead>
    requires i <= |t|
    decreases |t| - i
  {
    if i == |t| then Ok(Read(if neg then -result else result))
    else
      match DigitOf(t[i])
      case None => Fail(MALFORMED_READINT)
      case Some(n) =>
        if result * base > MRB_INT_MAX then Ok(Overflow)
        else
          var tmp := result * base + n;
          if neg && tmp == MRB_INT_MAX + 1 then Ok(Read(MRB_INT_MIN))
          else if tmp > MRB_INT_MAX then Ok(Overflow)
          else ReadIntLoop(t, i + 1, tmp, base, neg)
  }

  /** Without neg, which is all the active callers pass, readint as written keeps its promise. */
  lemma ReadIntAsWrittenPositive(s: string, base: nat)
    requires 2 <= base <= 16
    ensures ReadIntAsWritten(s, base, false) == ReadIntSpec(s, base, false)
  {
    var t := Unsigned(s);
    assert t[..0] == [];
    LoopAgrees(t, 0, base);
  }

  lemma {:induction false} LoopAgrees(t: string, i: nat, base: nat)
    requires 2 <= base && i <= |t| && AllDigits(t[..i]) && Value(t[..i], base) <= MRB_INT_MAX
    ensures ReadIntLoop(t, i, Value(t[..i], base), base, false) == DigitsRead(t, base, false)
    decreases |t| - i
  {
    var result := Value(t[..i], base);
    if i == |t| {
      assert t[..i] == t;
      FirstBadAt(t, |t|);
    } else if DigitOf(t[i]).None? {
      FirstBadAt(t, i);
    } else {
      ValueStep(t, i, base);
      if Value(t[..i + 1], base) > MRB_INT_MAX {
        OverflowIn(t, i, base, false);
      } else {
        LoopAgrees(t, i + 1, base);
      }
    }
  }

  /**
   * With neg, digits whose prefix reads exactly MRB_INT_MAX + 1 make
   * readint as written answer MRB_INT_MIN, even when more digits follow.
   */
  lemma EarlyMin(t: string, i: nat, base: nat)
    requires 2 <= base && i < |t| && AllDigits(t[..i + 1])
    requires Value(t[..i], base) * base <= MRB_INT_MAX && Value(t[..i + 1], base) == MRB_INT_MAX + 1
    ensures ReadIntLoop(t, 0, 0, base, true) == Ok(Read(MRB_INT_MIN))
  {
    assert t[..0] == [];
    ValueGrows(t, i, i + 1, base);
    LoopToMin(t, 0, i, base);
  }

  lemma {:induction false} LoopToMin(t: string, k: nat, i: nat, base: nat)
    requires 2 <= base && k <= i < |t| && AllDigits(t[..i + 1])
    requires Value(t[..i], base) * base <= MRB_INT_MAX && Value(t[..i + 1], base) == MRB_INT_MAX + 1
    ensures AllDigits(t[..k]) && ReadIntLoop(t, k, Value(t[..k], base), base, true) == Ok(Read(MRB_INT_MIN))
    decreases i - k
  {
    ValueGrows(t, k, i + 1, base);
    ValueGrows(t, k, i, base);
    assert t[..i + 1][k] == t[k];
    ValueStep(t, k, base);
    MulAtLeast(Value(t[..k], base), Value(t[..i], base), base);
    if k < i {
      ValueGrows(t, k + 1, i, base);
      MulAtLeast(Value(t[..i], base), Value(t[..i], base), base);
      LoopToMin(t, k + 1, i, base);
    }
  }

  /** The values of the prefixes of "92233720368547758080" up to 5 digits. */
  lemma EarlyMinDigits1()
    ensures AllDigits("92233") && Value("92233", 10) == 92233
  {
    assert Value("9", 10) == 9 by { assert "9"[..0] == []; }
    assert Value("92", 10) == 92 by { assert "92"[..1] == "9"; }
    assert Value("922", 10) == 922 by { assert "922"[..2] == "92"; }
    assert Value("9223", 10) == 9223 by { assert "9223"[..3] == "922"; }
    assert Value("92233", 10) == 92233 by { assert "92233"[..4] == "9223"; }
  }

  /** The values of the prefixes of "92233720368547758080" up to 10 digits. */
  lemma EarlyMinDigits2()
    requires AllDigits("92233") && Value("92233", 10) == 92233
    ensures AllDigits("9223372036") && Value("9223372036", 10) == 9223372036
  {
    assert Value("922337", 10) == 922337 by { assert "922337"[..5] == "92233"; }
    assert Value("9223372", 10) == 9223372 by { assert "9223372"[..6] == "922337"; }
    assert Value("92233720", 10) == 92233720 by { assert "92233720"[..7] == "9223372"; }
    assert Value("922337203", 10) == 922337203 by { assert "922337203"[..8] == "92233720"; }
    assert Value("9223372036", 10) == 9223372036 by { assert "9223372036"[..9] == "922337203"; }
  }

  /** The values of the prefixes of "92233720368547758080" up to 15 digits. */
  lemma EarlyMinDigits3()
    requires AllDigits("9223372036") && Value("9223372036", 10) == 9223372036
    ensures AllDigits("922337203685477") && Value("922337203685477", 10) == 922337203685477
  {
    assert Value("92233720368", 10) == 92233720368 by { assert "92233720368"[..10] == "9223372036"; }
    assert Value("922337203685", 10) == 922337203685 by { assert "922337203685"[..11] == "92233720368"; }
    assert Value("9223372036854", 10) == 9223372036854 by { assert "9223372036854"[..12] == "922337203685"; }
    assert Value("92233720368547", 10) == 92233720368547 by { assert "92233720368547"[..13] == "9223372036854"; }
    assert Value("922337203685477", 10) == 922337203685477 by { assert "922337203685477"[..14] == "92233720368547"; }
  }

  /** The values of the prefixes of "92233720368547758080" up to 20 digits. */
  lemma EarlyMinDigits4()
    requires AllDigits("922337203685477") && Value("922337203685477", 10) == 922337203685477
    ensures AllDigits("92233720368547758080") && Value("92233720368547758080", 10) == 92233720368547758080
    ensures AllDigits("922337203685477580") && Value("922337203685477580", 10) == 922337203685477580
    ensures AllDigits("9223372036854775808") && Value("9223372036854775808", 10) == 9223372036854775808
  {
    assert Value("9223372036854775", 10) == 9223372036854775 by { assert "9223372036854775"[..15] == "922337203685477"; }
    assert Value("92233720368547758", 10) == 92233720368547758 by { assert "92233720368547758"[..16] == "9223372036854775"; }
    assert Value("922337203685477580", 10) == 922337203685477580 by { assert "922337203685477580"[..17] == "92233720368547758"; }
    assert Value("9223372036854775808", 10) == 9223372036854775808 by { assert "9223372036854775808"[..18] == "922337203685477580"; }
    assert Value("92233720368547758080", 10) == 92233720368547758080 by { assert "92233720368547758080"[..19] == "9223372036854775808"; }
  }

  /**
   * With neg, "92233720368547758080" is read as MRB_INT_MIN, though it is
   * ten times that in magnitude and does not fit.
   */
  lemma ReadIntEarlyMin()
    ensures ReadIntAsWritten("92233720368547758080", 10, true) == Ok(Read(MRB_INT_MIN))
    ensures ReadIntSpec("92233720368547758080", 10, true) == Ok(Overflow)
  {
    EarlyMinDigits1();
    EarlyMinDigits2();
    EarlyMinDigits3();
    EarlyMinDigits4();
    EarlyMinAsWritten();
    EarlyMinOverflows();
  }

  lemma EarlyMinAsWritten()
    requires AllDigits("922337203685477580") && Value("922337203685477580", 10) == 922337203685477580
    requires AllDigits("9223372036854775808") && Value("9223372036854775808", 10) == 9223372036854775808
    ensures ReadIntAsWritten("92233720368547758080", 10, true) == Ok(Read(MRB_INT_MIN))
  {
    var t := "92233720368547758080";
    assert Unsigned(t) == t;
    assert t[..18] == "922337203685477580" && t[..19] == "9223372036854775808";
    EarlyMin(t, 18, 10);
  }

  lemma EarlyMinOverflows()
    requires AllDigits("92233720368547758080") && Value("92233720368547758080", 10) == 92233720368547758080
    ensures ReadIntSpec("92233720368547758080", 10, true) == Ok(Overflow)
  {
    var t := "92233720368547758080";
    assert Unsigned(t) == t;
    assert t[..20] == t;
    FirstBadAt(t, 20);
  }
}
