/** Character helpers shared by the normaliser and the validator: the class
    `\d` of JavaScript regular expressions and the idiom `replace(/\D/g, '')`,
    which deletes every character outside it. */
module Chars {

  /** `\d`: an ASCII decimal digit. JavaScript's `\d` matches no other digits. */
  predicate IsDigit(c: char) {
    '0' <= c <= '9'
  }

  predicate AllDigits(s: string) {
    forall i :: 0 <= i < |s| ==> IsDigit(s[i])
  }

  /** `s.replace(/\D/g, '')`: the digits of `s`, in their original order. */
  function StripNonDigits(s: string): (r: string)
    ensures AllDigits(r)
    ensures |r| <= |s|
  {
    if s == [] then []
    else (if IsDigit(s[0]) then [s[0]] else []) + StripNonDigits(s[1..])
  }

  /** Stripping works piecewise: the digits of `a + b` are the digits of `a`
      followed by the digits of `b`. */
  lemma {:induction false} StripAppend(a: string, b: string)
    ensures StripNonDigits(a + b) == StripNonDigits(a) + StripNonDigits(b)
    decreases |a|
  {
    if a == [] {
      assert a + b == b;
    } else {
      assert (a + b)[0] == a[0];
      assert (a + b)[1..] == a[1..] + b;
      assert StripNonDigits(a + b) == (if IsDigit(a[0]) then [a[0]] else []) + StripNonDigits(a[1..] + b);
      StripAppend(a[1..], b);
    }
  }

  /** Exactly the digits of `s` survive. */
  lemma {:induction false} StripKeepsDigits(s: string)
    ensures forall c :: c in StripNonDigits(s) <==> c in s && IsDigit(c)
    decreases |s|
  {
    if s != [] {
      StripKeepsDigits(s[1..]);
      assert s == [s[0]] + s[1..];
    }
  }

  /** A single character that is not a digit strips to nothing. */
  lemma StripNonDigitChar(c: char)
    requires !IsDigit(c)
    ensures StripNonDigits([c]) == []
  {
    assert [c][0] == c && [c][1..] == [];
  }

  /** Digit strings are closed under concatenation. */
  lemma AllDigitsAppend(x: string, y: string)
    requires AllDigits(x) && AllDigits(y)
    ensures AllDigits(x + y)
  {
    assert forall i :: 0 <= i < |x| ==> (x + y)[i] == x[i];
    assert forall i :: |x| <= i < |x + y| ==> (x + y)[i] == y[i - |x|];
  }

  /** A string of digits only is left unchanged. */
  lemma {:induction false} StripAllDigits(s: string)
    requires AllDigits(s)
    ensures StripNonDigits(s) == s
    decreases |s|
  {
    if s != [] {
      StripAllDigits(s[1..]);
      assert s == [s[0]] + s[1..];
    }
  }

  /** Stripping is idempotent. */
  lemma StripIdempotent(s: string)
    ensures StripNonDigits(StripNonDigits(s)) == StripNonDigits(s)
  {
    StripAllDigits(StripNonDigits(s));
  }

  /** A character that is not a digit never contributes to the result,
      wherever it stands. */
  lemma StripIgnoresNonDigit(a: string, c: char, b: string)
    requires !IsDigit(c)
    ensures StripNonDigits(a + [c] + b) == StripNonDigits(a + b)
  {
    var sc := StripNonDigits([c]);
    StripNonDigitChar(c);
    calc {
      StripNonDigits(a + [c] + b);
      { StripAppend(a + [c], b); }
      StripNonDigits(a + [c]) + StripNonDigits(b);
      { StripAppend(a, [c]); }
      StripNonDigits(a) + sc + StripNonDigits(b);
      { assert StripNonDigits(a) + sc == StripNonDigits(a); }
      StripNonDigits(a) + StripNonDigits(b);
      { StripAppend(a, b); }
      StripNonDigits(a + b);
    }
  }
}
