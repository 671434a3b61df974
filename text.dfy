/** Python string semantics the engine relies on: the ordering of `str`
    values (the heap's tie-break) and the `R<digits>` request ids. */
module Text {

  /** Python's `a < b` on strings: lexicographic by code point, a proper
      prefix ordering first. */
  predicate StrLess(a: string, b: string)
    ensures |a| < |b| && a == b[..|a|] ==> StrLess(a, b)
  {
    if |a| == 0 then |b| > 0
    else if |b| == 0 then false
    else
      assert |a| < |b| && a == b[..|a|] ==> a[1..] == b[1..][..|a| - 1];
      a[0] < b[0] || (a[0] == b[0] && StrLess(a[1..], b[1..]))
  }

  lemma {:induction false} StrLessIrreflexive(a: string)
    ensures !StrLess(a, a)
  {
    if |a| > 0 {
      StrLessIrreflexive(a[1..]);
    }
  }

  lemma {:induction false} StrLessTransitive(a: string, b: string, c: string)
    requires StrLess(a, b) && StrLess(b, c)
    ensures StrLess(a, c)
  {
    if |a| > 0 && |b| > 0 && |c| > 0 && a[0] == b[0] == c[0] {
      StrLessTransitive(a[1..], b[1..], c[1..]);
    }
  }

  /** Any two different strings are ordered one way or the other. */
  lemma {:induction false} StrLessTotal(a: string, b: string)
    ensures a == b || StrLess(a, b) || StrLess(b, a)
  {
    if |a| > 0 && |b| > 0 && a[0] == b[0] {
      StrLessTotal(a[1..], b[1..]);
      if a[1..] == b[1..] {
        assert a == [a[0]] + a[1..] && b == [b[0]] + b[1..];
      }
    }
  }

  lemma {:induction false} StrLessAsymmetric(a: string, b: string)
    requires StrLess(a, b)
    ensures !StrLess(b, a)
  {
    if |a| > 0 && |b| > 0 && a[0] == b[0] {
      StrLessAsymmetric(a[1..], b[1..]);
    }
  }

  /** Comparison is textual, not numeric: "R10" sorts before "R9". */
  lemma TextualOrderOfIds()
    ensures StrLess("R10", "R9") && !StrLess("R9", "R10")
  {
    assert "R10"[1..] == "10" && "R9"[1..] == "9";
  }

  predicate IsDigit(c: char) {
    '0' <= c <= '9'
  }

  /** `s.isdigit()` for ASCII digits: non-empty and all digits. */
  predicate IsDigits(s: string) {
    |s| > 0 && forall i :: 0 <= i < |s| ==> IsDigit(s[i])
  }

  /** `int(s)` for a string of digits (leading zeros allowed). */
  function DigitsValue(s: string): (n: nat)
    requires forall i :: 0 <= i < |s| ==> IsDigit(s[i])
  {
    if s == [] then 0
    else
      assert IsDigit(s[|s| - 1]);
      DigitsValue(s[..|s| - 1]) * 10 + (s[|s| - 1] as int - '0' as int)
  }

  /** `str(n)`: decimal digits without leading zeros. */
  function NatToString(n: nat): (s: string)
    ensures IsDigits(s)
    ensures |s| > 1 ==> s[0] != '0'
  {
    if n < 10 then [('0' as int + n) as char]
    else NatToString(n / 10) + [('0' as int + n % 10) as char]
  }

  /** Formatting a number and parsing it back gives the number. */
  lemma {:induction false} DigitsValueOfNatToString(n: nat)
    ensures DigitsValue(NatToString(n)) == n
  {
    var s := NatToString(n);
    if n >= 10 {
      DigitsValueOfNatToString(n / 10);
      assert s[..|s| - 1] == NatToString(n / 10);
    }
  }

  /** The request id allocated for counter value `n`: `f"R{n}"`. */
  function RequestId(n: nat): (rid: string)
    ensures IsNumberedId(rid)
    ensures |rid| == 2 || rid[1] != '0'
  {
    var rid := "R" + NatToString(n);
    assert rid[1..] == NatToString(n);
    rid
  }

  /** `rid.startswith("R") and rid[1:].isdigit()`. */
  predicate IsNumberedId(rid: string)
    ensures IsNumberedId(rid) ==> |rid| >= 2 && rid[0] == 'R'
  {
    |rid| > 0 && rid[0] == 'R' && IsDigits(rid[1..])
  }

  /** `int(rid[1:])` for a numbered id. An id written as the program writes
      them, without a leading zero, is the id allocated for its number. */
  function IdNumber(rid: string): (n: nat)
    requires IsNumberedId(rid)
    ensures (|rid| == 2 || rid[1] != '0') ==> RequestId(n) == rid
  {
    var n := DigitsValue(rid[1..]);
    if |rid| == 2 || rid[1] != '0' then
      NatToStringOfDigitsValue(rid[1..]);
      assert rid == "R" + rid[1..];
      n
    else n
  }

  /** Parsing a digit string without a leading zero and formatting the number
      gives back the string. */
  lemma {:induction false} NatToStringOfDigitsValue(s: string)
    requires IsDigits(s) && (|s| == 1 || s[0] != '0')
    ensures NatToString(DigitsValue(s)) == s
  {
    if |s| > 1 {
      var init, d := s[..|s| - 1], s[|s| - 1];
      assert IsDigit(d) && IsDigit(init[0]);
      NatToStringOfDigitsValue(init);
      var v := DigitsValue(init);
      if v < 10 {
        assert |NatToString(v)| == 1;
        assert |init| == 1;
      }
      var n := DigitsValue(s);
      assert n == v * 10 + (d as int - '0' as int);
      DivMod10(v, d as int - '0' as int);
      assert s == init + [d];
    }
  }

  lemma DivMod10(v: nat, d: nat)
    requires d < 10
    ensures (v * 10 + d) / 10 == v && (v * 10 + d) % 10 == d
  {
  }

  /** An allocated id is numbered, and its number is the counter it came from. */
  lemma RequestIdRoundTrip(n: nat)
    ensures IsNumberedId(RequestId(n)) && IdNumber(RequestId(n)) == n
  {
    assert RequestId(n)[1..] == NatToString(n);
    DigitsValueOfNatToString(n);
  }
}
