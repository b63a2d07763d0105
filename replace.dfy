/** Python's `str.replace(pat, rep)`: a left-to-right scan that replaces
    non-overlapping occurrences of a non-empty pattern, together with the
    facts about it that the LaTeX formatter relies on. */
module StrReplace {

  /** The replacement of every non-overlapping occurrence of `pat` in `s`,
      found scanning from the left, by `rep`. */
  function Replace(s: string, pat: string, rep: string): (r: string)
    requires pat != []
    ensures rep == pat ==> r == s
    ensures |rep| == |pat| ==> |r| == |s|
    decreases |s|
  {
    if s == [] then []
    else if |pat| <= |s| && s[..|pat|] == pat then rep + Replace(s[|pat|..], pat, rep)
    else [s[0]] + Replace(s[1..], pat, rep)
  }

  /** The characters the formatter's six placeholder tokens are made of. */
  predicate Special(c: char) {
    c == '|' || c == '+' || c == '-' || c == '<' || c == '>'
  }

  /** `s` holds none of the placeholder characters. */
  predicate Plain(s: string) {
    forall i :: 0 <= i < |s| ==> !Special(s[i])
  }

  /** A token the formatter replaces: one or two placeholder characters. */
  predicate IsToken(t: string) {
    1 <= |t| <= 2 && forall i :: 0 <= i < |t| ==> Special(t[i])
  }

  ghost predicate OccursAt(s: string, t: string, i: int) {
    0 <= i && i + |t| <= |s| && s[i..i + |t|] == t
  }

  /** `t` is not a substring of `s`. */
  ghost predicate Free(s: string, t: string) {
    forall i :: !OccursAt(s, t, i)
  }

  lemma FreeDrop(s: string, t: string, k: nat)
    requires k <= |s| && Free(s, t)
    ensures Free(s[k..], t)
  {
    forall i ensures !OccursAt(s[k..], t, i) {
      if 0 <= i && i + |t| <= |s| - k {
        assert s[k..][i..i + |t|] == s[i + k..i + k + |t|];
        assert !OccursAt(s, t, i + k);
      }
    }
  }

  /** A string without a pattern comes out of `Replace` unchanged. */
  lemma {:induction false} ReplaceIdentity(s: string, pat: string, rep: string)
    requires pat != [] && Free(s, pat)
    ensures Replace(s, pat, rep) == s
  {
    if s != [] {
      assert !OccursAt(s, pat, 0);
      FreeDrop(s, pat, 1);
      ReplaceIdentity(s[1..], pat, rep);
    }
  }

  /** The first character of a replacement result is the first character of
      the input or of the replacement text. */
  lemma {:induction false} ReplaceHead(s: string, pat: string, rep: string)
    requires pat != [] && s != [] && rep != []
    ensures Replace(s, pat, rep) != []
    ensures Replace(s, pat, rep)[0] == s[0] || Replace(s, pat, rep)[0] == rep[0]
  {
  }

  /** For a token of one or two characters, an occurrence is a match of
      its characters. */
  lemma OccursAtChars(x: string, t: string, i: int)
    requires 1 <= |t| <= 2
    ensures OccursAt(x, t, i)
        <==> 0 <= i && i + |t| <= |x| && x[i] == t[0] && (|t| == 2 ==> x[i + 1] == t[1])
  {
    if 0 <= i && i + |t| <= |x| {
      if |t| == 1 {
        assert x[i..i + 1] == [x[i]];
      } else {
        assert x[i..i + 2] == [x[i], x[i + 1]];
      }
    }
  }

  /** A replacement with plain text leaves no occurrence of the pattern it
      replaces, and introduces no token that was not there before. */
  lemma {:induction false} ReplaceFree(s: string, pat: string, rep: string, t: string)
    requires pat != [] && rep != [] && Plain(rep) && IsToken(t)
    requires t == pat || Free(s, t)
    ensures Free(Replace(s, pat, rep), t)
    decreases |s|, 1
  {
    if s != [] {
      if |pat| <= |s| && s[..|pat|] == pat {
        ReplaceFreeMatch(s, pat, rep, t);
      } else {
        ReplaceFreeSkip(s, pat, rep, t);
      }
    }
  }

  /** The step that replaces a match at the front. */
  lemma {:induction false} ReplaceFreeMatch(s: string, pat: string, rep: string, t: string)
    requires pat != [] && rep != [] && Plain(rep) && IsToken(t)
    requires t == pat || Free(s, t)
    requires |pat| <= |s| && s[..|pat|] == pat
    ensures Free(Replace(s, pat, rep), t)
    decreases |s|, 0
  {
    var out := Replace(s, pat, rep);
    var tail := Replace(s[|pat|..], pat, rep);
    if t != pat { FreeDrop(s, t, |pat|); }
    ReplaceFree(s[|pat|..], pat, rep, t);
    assert out == rep + tail;
    forall i ensures !OccursAt(out, t, i) {
      OccursAtChars(out, t, i);
      OccursAtChars(tail, t, i - |rep|);
      if 0 <= i < |rep| { assert out[i] == rep[i]; }
    }
  }

  /** The step that keeps the first character. */
  lemma {:induction false} ReplaceFreeSkip(s: string, pat: string, rep: string, t: string)
    requires pat != [] && rep != [] && Plain(rep) && IsToken(t)
    requires t == pat || Free(s, t)
    requires s != [] && !(|pat| <= |s| && s[..|pat|] == pat)
    ensures Free(Replace(s, pat, rep), t)
    decreases |s|, 0
  {
    var out := Replace(s, pat, rep);
    var tail := Replace(s[1..], pat, rep);
    if t != pat { FreeDrop(s, t, 1); }
    ReplaceFree(s[1..], pat, rep, t);
    assert out == [s[0]] + tail;
    forall i ensures !OccursAt(out, t, i) {
      OccursAtChars(out, t, i);
      OccursAtChars(tail, t, i - 1);
      if i == 0 {
        OccursAtChars(s, t, 0);
        if |s| >= 2 {
          ReplaceHead(s[1..], pat, rep);
          if |pat| == 2 { assert s[..2] == [s[0], s[1]]; }
        }
        if |pat| == 1 { assert s[..1] == [s[0]]; }
      }
    }
  }

  /** No occurrence of a pattern of at most two characters straddles the
      join of `a` and `b`. */
  predicate JoinSafe(a: string, b: string, pat: string) {
    |pat| == 2 && a != [] && b != [] ==> !(a[|a| - 1] == pat[0] && b[0] == pat[1])
  }

  /** Where no occurrence straddles the join, replacing in a concatenation
      is replacing in each part. */
  lemma {:induction false} ReplaceAppend(a: string, b: string, pat: string, rep: string)
    requires 1 <= |pat| <= 2 && JoinSafe(a, b, pat)
    ensures Replace(a + b, pat, rep) == Replace(a, pat, rep) + Replace(b, pat, rep)
    decreases |a|, 1
  {
    if a == [] {
      assert a + b == b;
    } else if |a| < |pat| {
      ReplaceAppendShort(a, b, pat, rep);
    } else {
      ReplaceAppendStep(a, b, pat, rep, if a[..|pat|] == pat then |pat| else 1);
    }
  }

  lemma {:induction false} ReplaceAppendStep(a: string, b: string, pat: string, rep: string, k: nat)
    requires 1 <= |pat| <= |a| && |pat| <= 2 && JoinSafe(a, b, pat)
    requires k == if a[..|pat|] == pat then |pat| else 1
    ensures Replace(a + b, pat, rep) == Replace(a, pat, rep) + Replace(b, pat, rep)
    decreases |a|, 0
  {
    JoinSafeDrop(a, b, pat, k);
    ReplaceAppend(a[k..], b, pat, rep);
    ReplaceFront(a, b, pat, rep, k);
  }

  lemma JoinSafeDrop(a: string, b: string, pat: string, k: nat)
    requires k <= |a| && JoinSafe(a, b, pat)
    ensures JoinSafe(a[k..], b, pat)
  {
    assert a[k..] != [] ==> a[k..][|a[k..]| - 1] == a[|a| - 1];
  }

  /** The first scanning step is the same on `a` and on `a + b` when `a`
      is at least as long as the pattern. */
  lemma ReplaceFront(a: string, b: string, pat: string, rep: string, k: nat)
    requires 1 <= |pat| <= |a|
    requires k == if a[..|pat|] == pat then |pat| else 1
    ensures Replace(a, pat, rep) == (if k == |pat| && a[..|pat|] == pat then rep else [a[0]]) + Replace(a[k..], pat, rep)
    ensures Replace(a + b, pat, rep) == (if k == |pat| && a[..|pat|] == pat then rep else [a[0]]) + Replace(a[k..] + b, pat, rep)
  {
    var ab := a + b;
    assert ab[..|pat|] == a[..|pat|];
    assert ab[k..] == a[k..] + b;
  }

  lemma ReplaceAppendShort(a: string, b: string, pat: string, rep: string)
    requires |a| == 1 && |pat| == 2 && JoinSafe(a, b, pat)
    ensures Replace(a + b, pat, rep) == Replace(a, pat, rep) + Replace(b, pat, rep)
  {
    var ab := a + b;
    assert a[1..] == [];
    assert Replace(a, pat, rep) == [a[0]];
    assert ab[1..] == b;
    assert !(|pat| <= |ab| && ab[..|pat|] == pat) by {
      if b != [] { assert ab[..2] == [a[0], b[0]]; }
    }
  }

  /** Concatenation of a list of pieces. */
  function Concat(ps: seq<string>): string {
    if ps == [] then [] else ps[0] + Concat(ps[1..])
  }

  lemma {:induction false} ConcatAppend(ps: seq<string>, qs: seq<string>)
    ensures Concat(ps + qs) == Concat(ps) + Concat(qs)
  {
    if ps != [] {
      assert (ps + qs)[1..] == ps[1..] + qs;
      ConcatAppend(ps[1..], qs);
    } else {
      assert ps + qs == qs;
    }
  }

  /** Non-empty pieces between which no occurrence of `pat` straddles. */
  predicate PiecesSafe(ps: seq<string>, pat: string) {
    && (forall i :: 0 <= i < |ps| ==> ps[i] != [])
    && (forall i :: 0 <= i < |ps| - 1 ==> JoinSafe(ps[i], ps[i + 1], pat))
  }

  /** Replacing in a concatenation of safely joined pieces is replacing
      piece by piece. */
  lemma {:induction false} ReplacePieces(ps: seq<string>, pat: string, rep: string)
    requires 1 <= |pat| <= 2 && PiecesSafe(ps, pat)
    ensures Replace(Concat(ps), pat, rep)
         == Concat(seq(|ps|, i requires 0 <= i < |ps| => Replace(ps[i], pat, rep)))
  {
    var outs := seq(|ps|, i requires 0 <= i < |ps| => Replace(ps[i], pat, rep));
    if ps == [] {
      assert outs == [];
    } else {
      var rest := ps[1..];
      assert PiecesSafe(rest, pat) by {
        forall i | 0 <= i < |rest| - 1 ensures JoinSafe(rest[i], rest[i + 1], pat) {
          assert rest[i] == ps[i + 1] && rest[i + 1] == ps[i + 2];
        }
      }
      ReplacePieces(rest, pat, rep);
      var restOuts := seq(|rest|, i requires 0 <= i < |rest| => Replace(rest[i], pat, rep));
      assert outs[1..] == restOuts;
      if rest != [] {
        assert Concat(rest)[0] == rest[0][0];
        assert JoinSafe(ps[0], ps[1], pat);
      }
      ReplaceAppend(ps[0], Concat(rest), pat, rep);
    }
  }
}
