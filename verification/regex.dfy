/** A reference semantics for the anchored regular expressions the record
    validator uses: alternations of `^p0 p1 … pn$`, where every piece is one
    character class repeated between a lower and an upper bound. The class
    stands for the language of the expression; the validator's hand-written
    predicates are proved equal to it. */
module Regex {
  import opened Chars

  /** `\d` or one literal character. */
  datatype CharClass = Digit | Char(c: char)

  predicate InClass(cls: CharClass, c: char) {
    match cls
    case Digit => IsDigit(c)
    case Char(d) => c == d
  }

  predicate AllIn(cls: CharClass, s: string) {
    forall i :: 0 <= i < |s| ==> InClass(cls, s[i])
  }

  /** `cls{min,max}`; `cls` alone is `cls{1,1}` and `cls?` is `cls{0,1}`. */
  datatype Piece = Piece(cls: CharClass, min: nat, max: nat)

  /** An anchored concatenation `^p0 p1 … pn$`. */
  type Pattern = seq<Piece>

  /** `s` splits into consecutive segments, one per piece, each of an allowed
      length and made of characters of the piece's class. */
  predicate Matches(p: Pattern, s: string)
    decreases |p|
  {
    if p == [] then s == []
    else exists k :: p[0].min <= k <= p[0].max && k <= |s| && AllIn(p[0].cls, s[..k]) && Matches(p[1..], s[k..])
  }

  /** The alternation `^a0$|^a1$|…`. */
  predicate MatchesSome(alts: seq<Pattern>, s: string)
    decreases |alts|
  {
    if alts == [] then false else Matches(alts[0], s) || MatchesSome(alts[1..], s)
  }

  /** The pattern of a literal word: one single-character piece per letter. */
  function Literal(w: string): Pattern
    decreases |w|
  {
    if w == [] then [] else [Piece(Char(w[0]), 1, 1)] + Literal(w[1..])
  }

  lemma AllInDigit(s: string)
    ensures AllIn(Digit, s) <==> AllDigits(s)
  {
  }

  lemma MatchesSomeCons(a: Pattern, rest: seq<Pattern>, s: string)
    ensures MatchesSome([a] + rest, s) <==> Matches(a, s) || MatchesSome(rest, s)
  {
    assert ([a] + rest)[0] == a;
    assert ([a] + rest)[1..] == rest;
  }

  lemma MatchesCons(pc: Piece, rest: Pattern, s: string)
    ensures Matches([pc] + rest, s) <==>
      exists k :: pc.min <= k <= pc.max && k <= |s| && AllIn(pc.cls, s[..k]) && Matches(rest, s[k..])
  {
    assert ([pc] + rest)[0] == pc;
    assert ([pc] + rest)[1..] == rest;
  }

  /** A piece of fixed width `n` consumes exactly the next `n` characters. */
  lemma MatchesFixed(pc: Piece, rest: Pattern, s: string)
    requires pc.min == pc.max
    ensures Matches([pc] + rest, s) <==>
      pc.min <= |s| && AllIn(pc.cls, s[..pc.min]) && Matches(rest, s[pc.min..])
  {
    MatchesCons(pc, rest, s);
    if pc.min <= |s| && AllIn(pc.cls, s[..pc.min]) && Matches(rest, s[pc.min..]) {
      var k := pc.min;
      assert pc.min <= k <= pc.max && k <= |s| && AllIn(pc.cls, s[..k]) && Matches(rest, s[k..]);
    }
  }

  /** The last piece must consume the whole remainder. */
  lemma MatchesLast(pc: Piece, s: string)
    ensures Matches([pc], s) <==> pc.min <= |s| <= pc.max && AllIn(pc.cls, s)
  {
    assert [pc] + [] == [pc];
    MatchesCons(pc, [], s);
    if pc.min <= |s| <= pc.max && AllIn(pc.cls, s) {
      var k := |s|;
      assert s[..k] == s;
      assert Matches([], s[k..]);
    }
    if Matches([pc], s) {
      var k :| pc.min <= k <= pc.max && k <= |s| && AllIn(pc.cls, s[..k]) && Matches([], s[k..]);
      assert k == |s|;
      assert s[..k] == s;
    }
  }

  /** A pattern whose first piece needs at least one character can only match
      a string that starts with a character of that piece's class. */
  lemma MatchesFirstChar(p: Pattern, s: string)
    requires p != [] && 1 <= p[0].min && Matches(p, s)
    ensures 1 <= |s| && InClass(p[0].cls, s[0])
  {
    var k :| p[0].min <= k <= p[0].max && k <= |s| && AllIn(p[0].cls, s[..k]) && Matches(p[1..], s[k..]);
    assert s[..k][0] == s[0];
  }

  /** `c?` followed by a piece that cannot start with `c`: the optional
      character is consumed exactly when it is there. */
  lemma MatchesOptional(c: char, rest: Pattern, s: string)
    requires rest != [] && 1 <= rest[0].min && !InClass(rest[0].cls, c)
    ensures Matches([Piece(Char(c), 0, 1)] + rest, s) <==>
      Matches(rest, if 0 < |s| && s[0] == c then s[1..] else s)
  {
    var pc := Piece(Char(c), 0, 1);
    MatchesCons(pc, rest, s);
    if Matches([pc] + rest, s) {
      var k :| pc.min <= k <= pc.max && k <= |s| && AllIn(pc.cls, s[..k]) && Matches(rest, s[k..]);
      if k == 0 {
        assert s[k..] == s;
        if 0 < |s| && s[0] == c {
          MatchesFirstChar(rest, s);
        }
      } else {
        assert s[..k][0] == s[0];
      }
    }
    if 0 < |s| && s[0] == c && Matches(rest, s[1..]) {
      var k := 1;
      assert AllIn(pc.cls, s[..k]);
      assert pc.min <= k <= pc.max && k <= |s| && AllIn(pc.cls, s[..k]) && Matches(rest, s[k..]);
    }
    if !(0 < |s| && s[0] == c) && Matches(rest, s) {
      var k := 0;
      assert s[k..] == s;
      assert pc.min <= k <= pc.max && k <= |s| && AllIn(pc.cls, s[..k]) && Matches(rest, s[k..]);
    }
  }

  lemma PrefixCons(s: string, w: string)
    requires 1 <= |w| <= |s|
    ensures s[..|w|] == w <==> s[0] == w[0] && s[1..][..|w| - 1] == w[1..]
  {
    var n := |w|;
    assert s[1..][..n - 1] == s[1..n];
    if s[0] == w[0] && s[1..n] == w[1..] {
      assert forall i :: 0 <= i < n ==> s[..n][i] == w[i] by {
        forall i | 0 <= i < n ensures s[..n][i] == w[i] {
          if i > 0 { assert s[1..n][i - 1] == w[1..][i - 1]; }
        }
      }
    }
    if s[..n] == w {
      assert s[1..n] == s[..n][1..];
    }
  }

  /** A literal word matches exactly itself, then the rest of the pattern
      takes over. */
  lemma {:induction false} MatchesLiteral(w: string, rest: Pattern, s: string)
    ensures Matches(Literal(w) + rest, s) <==> |w| <= |s| && s[..|w|] == w && Matches(rest, s[|w|..])
    decreases |w|
  {
    if w == [] {
      assert Literal(w) + rest == rest;
      assert s[..0] == [] && s[0..] == s;
    } else {
      var pc := Piece(Char(w[0]), 1, 1);
      assert Literal(w) + rest == [pc] + (Literal(w[1..]) + rest);
      MatchesFixed(pc, Literal(w[1..]) + rest, s);
      if 1 <= |s| {
        MatchesLiteral(w[1..], rest, s[1..]);
        assert AllIn(pc.cls, s[..1]) <==> s[0] == w[0];
        if |w| <= |s| {
          assert s[1..][|w| - 1..] == s[|w|..];
          PrefixCons(s, w);
        }
      }
    }
  }
}
