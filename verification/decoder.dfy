/**
 * Decoding of a share value written as a digit string in a radix between 2 and 36,
 * most significant digit first, case-insensitively.
 */
module Decoder {
  import opened Failures
  import opened Arith

  /** Lower-casing of ASCII letters; every other character is left alone. */
  function ToLower(c: char): char
  {
    if 'A' <= c <= 'Z' then (c as int + 32) as char else c
  }

  function ToUpper(c: char): char
  {
    if 'a' <= c <= 'z' then (c as int - 32) as char else c
  }

  function LowerString(s: string): (t: string)
    ensures |t| == |s| && forall i :: 0 <= i < |s| ==> t[i] == ToLower(s[i])
  {
    seq(|s|, i requires 0 <= i < |s| => ToLower(s[i]))
  }

  function UpperString(s: string): (t: string)
    ensures |t| == |s| && forall i :: 0 <= i < |s| ==> t[i] == ToUpper(s[i])
  {
    seq(|s|, i requires 0 <= i < |s| => ToUpper(s[i]))
  }

  /** The digit a lower-case symbol stands for: '0'..'9' are 0..9 and 'a'..'z' are 10..35. */
  function DigitOf(c: char): (d: Option<nat>)
    ensures d.Some? ==> d.value < 36
  {
    if '0' <= c <= '9' then Some(c as int - '0' as int)
    else if 'a' <= c <= 'z' then Some(c as int - 'a' as int + 10)
    else None
  }

  /** `c` (in either case) is a digit symbol whose value is below `base`. */
  predicate IsDigitIn(c: char, base: int)
  {
    DigitOf(ToLower(c)).Some? && DigitOf(ToLower(c)).value < base
  }

  /** One iteration of the decoding loop on the lower-case symbol `c`. */
  function Push(acc: nat, c: char, base: int): (r: Result<nat>)
    requires 2 <= base <= 36
    ensures r.Ok? <==> DigitOf(c).Some? && DigitOf(c).value < base
    ensures r.Ok? ==> acc * base <= r.value < (acc + 1) * base
  {
    match DigitOf(c)
    case None => Err(InvalidCharacter(c))
    case Some(d) => if d >= base then Err(DigitOutOfRange(c, base)) else Ok(acc * base + d)
  }

  /** The decoding loop, left to right, over an already lower-cased string. */
  function Accumulate(t: string, base: int, acc: nat): (r: Result<nat>)
    requires 2 <= base <= 36
    ensures r.Ok? ==> acc * Pow(base, |t|) <= r.value < (acc + 1) * Pow(base, |t|)
    decreases |t|
  {
    if |t| == 0 then Ok(acc)
    else match Push(acc, t[0], base)
      case Err(e) => Err(e)
      case Ok(next) =>
        var r := Accumulate(t[1..], base, next);
        if r.Ok? then
          ShiftBounds(acc, next, base, Pow(base, |t| - 1), r.value);
          r
        else r
  }

  /**
   * If `next` extends `acc` by one digit and `v` extends `next` by digits worth less than
   * `scale`, then `v` extends `acc` by digits worth less than `base * scale`.
   */
  lemma ShiftBounds(acc: nat, next: nat, base: nat, scale: nat, v: int)
    requires acc * base <= next < (acc + 1) * base
    requires next * scale <= v < (next + 1) * scale
    ensures acc * (base * scale) <= v < (acc + 1) * (base * scale)
  {
    MulAtLeastMono(scale, acc * base, next);
    MulAtLeastMono(scale, next + 1, (acc + 1) * base);
    assert scale * (acc * base) == acc * (base * scale);
    assert scale * ((acc + 1) * base) == (acc + 1) * (base * scale);
  }

  /**
   * Decodes `s` in radix `base`. A base outside 2..36 is rejected first; otherwise the
   * value is accepted exactly when every character is a digit below the base.
   */
  function Decode(s: string, base: int): (r: Result<nat>)
    ensures !(2 <= base <= 36) ==> r == Err(InvalidBase(base))
    ensures 2 <= base <= 36 ==> (r.Ok? <==> forall i :: 0 <= i < |s| ==> IsDigitIn(s[i], base))
    ensures r.Err? ==> r.error.InvalidBase? || r.error.InvalidCharacter? || r.error.DigitOutOfRange?
  {
    if base < 2 || base > 36 then Err(InvalidBase(base))
    else
      var t := LowerString(s);
      AccumulateOkIff(t, base, 0);
      AccumulateErrors(t, base, 0);
      Accumulate(t, base, 0)
  }

  lemma {:induction false} AccumulateOkIff(t: string, base: int, acc: nat)
    requires 2 <= base <= 36
    ensures Accumulate(t, base, acc).Ok? <==>
              forall i :: 0 <= i < |t| ==> DigitOf(t[i]).Some? && DigitOf(t[i]).value < base
    decreases |t|
  {
    if |t| > 0 {
      match Push(acc, t[0], base)
      case Err(_) =>
      case Ok(next) =>
        AccumulateOkIff(t[1..], base, next);
        assert forall i :: 1 <= i < |t| ==> t[i] == t[1..][i - 1];
    }
  }

  lemma {:induction false} AccumulateErrors(t: string, base: int, acc: nat)
    requires 2 <= base <= 36
    ensures Accumulate(t, base, acc).Err? ==>
              Accumulate(t, base, acc).error.InvalidCharacter? || Accumulate(t, base, acc).error.DigitOutOfRange?
    decreases |t|
  {
    if |t| > 0 {
      match Push(acc, t[0], base)
      case Err(_) =>
      case Ok(next) => AccumulateErrors(t[1..], base, next);
    }
  }

  /** Feeding one more symbol to the loop is one more Horner step on its previous result. */
  lemma {:induction false} AccumulateSnoc(t: string, c: char, base: int, acc: nat)
    requires 2 <= base <= 36
    ensures Accumulate(t + [c], base, acc) ==
              match Accumulate(t, base, acc)
              case Err(e) => Err(e)
              case Ok(v) => Push(v, c, base)
    decreases |t|
  {
    if |t| == 0 {
      assert [c][1..] == [];
    } else {
      assert (t + [c])[0] == t[0] && (t + [c])[1..] == t[1..] + [c];
      match Push(acc, t[0], base)
      case Err(_) =>
      case Ok(next) => AccumulateSnoc(t[1..], c, base, next);
    }
  }

  /**
   * Horner's rule read from the right: decoding `s` followed by `c` multiplies the value of
   * `s` by the base and adds the digit of `c`, and fails as `s` fails or on a bad `c`.
   */
  lemma DecodeAppend(s: string, c: char, base: int)
    requires 2 <= base <= 36
    ensures Decode([], base) == Ok(0)
    ensures Decode(s + [c], base) ==
              match Decode(s, base)
              case Err(e) => Err(e)
              case Ok(v) =>
                if DigitOf(ToLower(c)).None? then Err(InvalidCharacter(ToLower(c)))
                else if DigitOf(ToLower(c)).value >= base then Err(DigitOutOfRange(ToLower(c), base))
                else Ok(base * v + DigitOf(ToLower(c)).value)
  {
    assert LowerString(s + [c]) == LowerString(s) + [ToLower(c)];
    AccumulateSnoc(LowerString(s), ToLower(c), base, 0);
  }

  lemma {:induction false} AccumulateFirstBad(t: string, base: int, acc: nat, i: nat)
    requires 2 <= base <= 36 && i < |t|
    requires forall j :: 0 <= j < i ==> DigitOf(t[j]).Some? && DigitOf(t[j]).value < base
    requires !(DigitOf(t[i]).Some? && DigitOf(t[i]).value < base)
    ensures Accumulate(t, base, acc) ==
              Err(if DigitOf(t[i]).None? then InvalidCharacter(t[i]) else DigitOutOfRange(t[i], base))
    decreases i
  {
    if i > 0 {
      match Push(acc, t[0], base)
      case Err(_) =>
      case Ok(next) =>
        assert forall j :: 0 <= j < i - 1 ==> t[1..][j] == t[j + 1];
        AccumulateFirstBad(t[1..], base, next, i - 1);
    }
  }

  /**
   * With a valid base, the error reported is about the first offending character (in
   * lower case): an invalid symbol, or a digit too large for the base.
   */
  lemma DecodeReportsFirstBadChar(s: string, base: int, i: nat)
    requires 2 <= base <= 36 && i < |s|
    requires forall j :: 0 <= j < i ==> IsDigitIn(s[j], base)
    requires !IsDigitIn(s[i], base)
    ensures Decode(s, base) ==
              Err(if DigitOf(ToLower(s[i])).None? then InvalidCharacter(ToLower(s[i]))
                  else DigitOutOfRange(ToLower(s[i]), base))
  {
    AccumulateFirstBad(LowerString(s), base, 0, i);
  }

  lemma LowerOfUpper(c: char)
    ensures ToLower(ToUpper(c)) == ToLower(c) && ToLower(ToLower(c)) == ToLower(c)
  {
  }

  /** Upper- and lower-case spellings of the same digits decode identically. */
  lemma DecodeIgnoresCase(s: string, base: int)
    ensures Decode(UpperString(s), base) == Decode(s, base)
    ensures Decode(LowerString(s), base) == Decode(s, base)
  {
    forall i | 0 <= i < |s|
      ensures ToLower(ToUpper(s[i])) == ToLower(s[i]) && ToLower(ToLower(s[i])) == ToLower(s[i])
    {
      LowerOfUpper(s[i]);
    }
    assert LowerString(UpperString(s)) == LowerString(s);
    assert LowerString(LowerString(s)) == LowerString(s);
  }

  /** A successfully decoded string of length n is below base^n. */
  lemma DecodeBound(s: string, base: int)
    requires 2 <= base <= 36 && Decode(s, base).Ok?
    ensures Decode(s, base).value < Pow(base, |s|)
  {
    assert |LowerString(s)| == |s|;
  }

  lemma DecodeSingle(c: char, base: int)
    requires 2 <= base <= 36
    ensures Decode([c], base) ==
              if DigitOf(ToLower(c)).None? then Err(InvalidCharacter(ToLower(c)))
              else if DigitOf(ToLower(c)).value >= base then Err(DigitOutOfRange(ToLower(c), base))
              else Ok(DigitOf(ToLower(c)).value)
  {
    DecodeAppend([], c, base);
    assert [] + [c] == [c];
  }

  lemma DecodeBoundaryExamples()
    ensures Decode("0", 2) == Ok(0) && Decode("0", 36) == Ok(0)
    ensures Decode("z", 36) == Ok(35)
    ensures Decode("g", 16) == Err(DigitOutOfRange('g', 16))
    ensures Decode("1", 1) == Err(InvalidBase(1)) && Decode("1", 37) == Err(InvalidBase(37))
  {
    DecodeSingle('0', 2);
    DecodeSingle('0', 36);
    DecodeSingle('z', 36);
    DecodeSingle('g', 16);
  }

  lemma DecodeHexExample()
    ensures Decode("1a", 16) == Ok(26) && Decode("1A", 16) == Ok(26)
    ensures Decode("1-", 10) == Err(InvalidCharacter('-'))
  {
    DecodeSingle('1', 16);
    DecodeSingle('1', 10);
    DecodeAppend("1", 'a', 16);
    DecodeAppend("1", 'A', 16);
    DecodeAppend("1", '-', 10);
    assert "1" + ['a'] == "1a" && "1" + ['A'] == "1A" && "1" + ['-'] == "1-";
  }
}
