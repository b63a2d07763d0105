/** `latex_formatter` of `astromy/latex.py`: six `str.replace` steps that
    turn the placeholder tokens of the error column into LaTeX math markup,
    and what they do to the entry templates of the column. */
module LatexFormat {
  import opened StrReplace

  /** The six placeholder tokens, in the order the formatter replaces them. */
  const Tokens: seq<string> := ["|", "+-", "++", "--", "<<", ">>"]

  /** The markup each token becomes, position for position. */
  const Markup: seq<string> := ["$", "\\pm", "^", "_", "{", "}"]

  /** `latex_formatter`: six replacements applied one after the other. A
      rendered number, signed or not, passes through unchanged. */
  function LatexFormatter(inp: string): (r: string)
    ensures Operand(inp) ==> r == inp
  {
    OperandUnchanged(inp);
    Replace(Replace(Replace(Replace(Replace(Replace(inp,
      "|", "$"), "+-", "\\pm"), "++", "^"), "--", "_"), "<<", "{"), ">>", "}")
  }

  /** None of the tokens occurs in `s`. */
  ghost predicate TokenFree(s: string) {
    forall t :: t in Tokens ==> Free(s, t)
  }

  lemma TokensAreTokens()
    ensures forall t :: t in Tokens ==> IsToken(t)
    ensures forall m :: m in Markup ==> m != [] && Plain(m)
  {
  }

  /** Every replacement step keeps the tokens already gone away and removes
      its own. */
  lemma StepFree(s: string, k: nat)
    requires k < 6
    requires forall j :: 0 <= j < k ==> Free(s, Tokens[j])
    ensures forall j :: 0 <= j <= k ==> Free(Replace(s, Tokens[k], Markup[k]), Tokens[j])
  {
    TokensAreTokens();
    forall j | 0 <= j <= k ensures Free(Replace(s, Tokens[k], Markup[k]), Tokens[j]) {
      assert Tokens[j] in Tokens && Tokens[k] in Tokens && Markup[k] in Markup;
      ReplaceFree(s, Tokens[k], Markup[k], Tokens[j]);
    }
  }

  /** The formatter's output contains none of the six tokens. */
  lemma LatexFormatterTokenFree(s: string)
    ensures TokenFree(LatexFormatter(s))
  {
    var s1 := Replace(s, "|", "$");
    var s2 := Replace(s1, "+-", "\\pm");
    var s3 := Replace(s2, "++", "^");
    var s4 := Replace(s3, "--", "_");
    var s5 := Replace(s4, "<<", "{");
    StepFree(s, 0);
    StepFree(s1, 1);
    StepFree(s2, 2);
    StepFree(s3, 3);
    StepFree(s4, 4);
    StepFree(s5, 5);
    forall t | t in Tokens ensures Free(LatexFormatter(s), t) {
      var j :| 0 <= j < 6 && Tokens[j] == t;
    }
  }

  /** A string without tokens passes through the formatter unchanged. */
  lemma LatexFormatterIdentity(s: string)
    requires TokenFree(s)
    ensures LatexFormatter(s) == s
  {
    assert forall j :: 0 <= j < 6 ==> Tokens[j] in Tokens;
    ReplaceIdentity(s, "|", "$");
    ReplaceIdentity(s, "+-", "\\pm");
    ReplaceIdentity(s, "++", "^");
    ReplaceIdentity(s, "--", "_");
    ReplaceIdentity(s, "<<", "{");
    ReplaceIdentity(s, ">>", "}");
  }

  /** Formatting twice is formatting once. */
  lemma LatexFormatterIdempotent(s: string)
    ensures LatexFormatter(LatexFormatter(s)) == LatexFormatter(s)
  {
    LatexFormatterTokenFree(s);
    LatexFormatterIdentity(LatexFormatter(s));
  }

  /** Text the formatter passes through unchanged: non-empty, ending in a
      non-placeholder character, with at most a leading sign as its only
      placeholder character. Rendered numbers, signed or not, and the
      markup are operands. */
  predicate Operand(s: string) {
    && s != []
    && !Special(s[|s| - 1])
    && (Special(s[0]) ==> s[0] == '-' || s[0] == '+')
    && forall i :: 0 < i < |s| ==> !Special(s[i])
  }

  /** A sign followed by a plain rendered number is an operand. */
  lemma SignedOperand(sign: char, m: string)
    requires sign == '+' || sign == '-'
    requires m != [] && Plain(m)
    ensures Operand([sign] + m)
  {
  }

  /** An operand holds no token, so every replacement step leaves it as is. */
  lemma OperandFixed(a: string, k: nat)
    requires Operand(a) && k < 6
    ensures Replace(a, Tokens[k], Markup[k]) == a
  {
    var t := Tokens[k];
    forall i ensures !OccursAt(a, t, i) {
      OccursAtChars(a, t, i);
    }
    ReplaceIdentity(a, t, Markup[k]);
  }

  /** An operand is left as is by all six replacement steps. */
  lemma OperandUnchanged(a: string)
    ensures Operand(a) ==>
      && Replace(a, "|", "$") == a && Replace(a, "+-", "\\pm") == a
      && Replace(a, "++", "^") == a && Replace(a, "--", "_") == a
      && Replace(a, "<<", "{") == a && Replace(a, ">>", "}") == a
  {
    if Operand(a) {
      OperandFixed(a, 0); OperandFixed(a, 1); OperandFixed(a, 2);
      OperandFixed(a, 3); OperandFixed(a, 4); OperandFixed(a, 5);
    }
  }

  /** A piece of formatter input: an operand, or one whole token named by
      its position in `Tokens`. */
  datatype Chunk = Text(s: string) | Token(k: nat)

  predicate ValidChunk(c: Chunk) {
    match c
    case Text(s) => Operand(s)
    case Token(k) => k < 6
  }

  /** The input text of a chunk. */
  function Spell(c: Chunk): string
    requires ValidChunk(c)
  {
    match c
    case Text(s) => s
    case Token(k) => Tokens[k]
  }

  /** What the whole formatter makes of a chunk: a token becomes its markup,
      an operand stays. */
  function Render(c: Chunk): string
    requires ValidChunk(c)
  {
    match c
    case Text(s) => s
    case Token(k) => Markup[k]
  }

  lemma MarkupOperand(k: nat)
    requires k < 6
    ensures Operand(Markup[k])
  {
  }

  /** What replacement step `k` makes of a chunk: its own token becomes the
      markup text, anything else stays. */
  function Step(c: Chunk, k: nat): (d: Chunk)
    requires ValidChunk(c) && k < 6
    ensures ValidChunk(d)
  {
    if c == Token(k) then MarkupOperand(k); Text(Markup[k]) else c
  }

  /** Two placeholder characters that form a two-character token. */
  predicate TokenPair(c: char, d: char) {
    (c == '+' && (d == '-' || d == '+')) || (c == '-' && d == '-') || (c == '<' && d == '<') || (c == '>' && d == '>')
  }

  /** `p` and `q` are non-empty and do not end and begin a token. */
  predicate Joins(p: string, q: string) {
    p != [] && q != [] && !TokenPair(p[|p| - 1], q[0])
  }

  predicate AllValid(cs: seq<Chunk>) {
    forall i :: 0 <= i < |cs| ==> ValidChunk(cs[i])
  }

  /** Valid chunks, no two neighbours of which end and begin a token. */
  predicate Chunked(cs: seq<Chunk>) {
    && AllValid(cs)
    && forall i :: 0 <= i < |cs| - 1 ==> Joins(Spell(cs[i]), Spell(cs[i + 1]))
  }

  function SpellAll(cs: seq<Chunk>): (ss: seq<string>)
    requires AllValid(cs)
    ensures |ss| == |cs|
  {
    seq(|cs|, i requires 0 <= i < |cs| => Spell(cs[i]))
  }

  function RenderAll(cs: seq<Chunk>): (rs: seq<string>)
    requires AllValid(cs)
    ensures |rs| == |cs|
  {
    seq(|cs|, i requires 0 <= i < |cs| => Render(cs[i]))
  }

  function StepAll(cs: seq<Chunk>, k: nat): (ds: seq<Chunk>)
    requires AllValid(cs) && k < 6
    ensures |ds| == |cs| && AllValid(ds)
  {
    seq(|cs|, i requires 0 <= i < |cs| => Step(cs[i], k))
  }

  lemma ReplaceSelf(pat: string, rep: string)
    requires pat != []
    ensures Replace(pat, pat, rep) == rep
  {
    assert pat[..|pat|] == pat;
    assert pat[|pat|..] == [];
  }

  /** Replacement step `k` on a chunk's text is the text of its step. */
  lemma ChunkStep(c: Chunk, k: nat)
    requires ValidChunk(c) && k < 6
    ensures Replace(Spell(c), Tokens[k], Markup[k]) == Spell(Step(c, k))
  {
    match c
    case Text(s) =>
      OperandFixed(s, k);
    case Token(j) =>
      if j == k {
        ReplaceSelf(Tokens[k], Markup[k]);
      } else {
        var t := Tokens[k];
        forall i ensures !OccursAt(Tokens[j], t, i) {
          OccursAtChars(Tokens[j], t, i);
        }
        ReplaceIdentity(Tokens[j], t, Markup[k]);
      }
  }

  /** A step keeps neighbours joined: the markup it puts in begins and ends
      with non-placeholder characters. */
  lemma JoinsStep(c: Chunk, d: Chunk, k: nat)
    requires ValidChunk(c) && ValidChunk(d) && k < 6 && Joins(Spell(c), Spell(d))
    ensures Joins(Spell(Step(c, k)), Spell(Step(d, k)))
  {
    MarkupOperand(k);
  }

  /** Where neighbours do not end and begin a token, no token straddles. */
  lemma JoinSafeAll(p: string, q: string, k: nat)
    requires Joins(p, q) && k < 6
    ensures JoinSafe(p, q, Tokens[k])
  {
  }

  /** One replacement step over joined chunks works chunk by chunk, and
      leaves the chunks joined. */
  lemma ChunksStep(cs: seq<Chunk>, k: nat)
    requires Chunked(cs) && k < 6
    ensures Replace(Concat(SpellAll(cs)), Tokens[k], Markup[k]) == Concat(SpellAll(StepAll(cs, k)))
    ensures Chunked(StepAll(cs, k))
  {
    var ps := SpellAll(cs);
    var ds := StepAll(cs, k);
    forall i | 0 <= i < |ps| ensures Replace(ps[i], Tokens[k], Markup[k]) == SpellAll(ds)[i] {
      ChunkStep(cs[i], k);
    }
    forall i | 0 <= i < |ps| - 1 ensures JoinSafe(ps[i], ps[i + 1], Tokens[k]) {
      JoinSafeAll(ps[i], ps[i + 1], k);
    }
    ReplacePieces(ps, Tokens[k], Markup[k]);
    assert seq(|ps|, i requires 0 <= i < |ps| => Replace(ps[i], Tokens[k], Markup[k])) == SpellAll(ds);
    forall i | 0 <= i < |ds| - 1 ensures Joins(Spell(ds[i]), Spell(ds[i + 1])) {
      JoinsStep(cs[i], cs[i + 1], k);
    }
  }

  /** After the six steps a chunk reads as its rendering. */
  lemma RenderSteps(c: Chunk)
    requires ValidChunk(c)
    ensures Spell(Step(Step(Step(Step(Step(Step(c, 0), 1), 2), 3), 4), 5)) == Render(c)
  {
  }

  /** The formatter on joined chunks renders each chunk on its own. */
  lemma LatexChunks(cs: seq<Chunk>)
    requires Chunked(cs)
    ensures LatexFormatter(Concat(SpellAll(cs))) == Concat(RenderAll(cs))
  {
    var d1 := StepAll(cs, 0);
    var d2 := StepAll(d1, 1);
    var d3 := StepAll(d2, 2);
    var d4 := StepAll(d3, 3);
    var d5 := StepAll(d4, 4);
    var d6 := StepAll(d5, 5);
    ChunksStep(cs, 0);
    ChunksStep(d1, 1);
    ChunksStep(d2, 2);
    ChunksStep(d3, 3);
    ChunksStep(d4, 4);
    ChunksStep(d5, 5);
    forall i | 0 <= i < |cs| ensures SpellAll(d6)[i] == RenderAll(cs)[i] {
      RenderSteps(cs[i]);
    }
    assert SpellAll(d6) == RenderAll(cs);
  }

  /** Two lists of joined chunks, joined to each other, are one. */
  lemma ChunkedAppend(cs: seq<Chunk>, ds: seq<Chunk>)
    requires Chunked(cs) && Chunked(ds) && cs != [] && ds != []
    requires Joins(Spell(cs[|cs| - 1]), Spell(ds[0]))
    ensures Chunked(cs + ds)
    ensures SpellAll(cs + ds) == SpellAll(cs) + SpellAll(ds)
    ensures RenderAll(cs + ds) == RenderAll(cs) + RenderAll(ds)
  {
    var all := cs + ds;
    forall i | 0 <= i < |all| - 1 ensures Joins(Spell(all[i]), Spell(all[i + 1])) {
      if i < |cs| - 1 {
        assert all[i] == cs[i] && all[i + 1] == cs[i + 1];
      } else if i >= |cs| {
        assert all[i] == ds[i - |cs|] && all[i + 1] == ds[i - |cs| + 1];
      }
    }
  }

  /** A chunk joined to the front of joined chunks. */
  lemma ChunkedCons(c: Chunk, cs: seq<Chunk>)
    requires ValidChunk(c) && Chunked(cs)
    requires cs != [] ==> Joins(Spell(c), Spell(cs[0]))
    ensures Chunked([c] + cs)
  {
    var all := [c] + cs;
    forall i | 0 <= i < |all| - 1 ensures Joins(Spell(all[i]), Spell(all[i + 1])) {
      if i > 0 {
        assert all[i] == cs[i - 1] && all[i + 1] == cs[i];
      }
    }
  }

  /** The formatter on two joined lists of chunks, each spelling and
      rendering to known text. */
  lemma LatexHalves(cs: seq<Chunk>, ds: seq<Chunk>, h: string, t: string, rh: string, rt: string)
    requires Chunked(cs) && Chunked(ds) && cs != [] && ds != []
    requires Joins(Spell(cs[|cs| - 1]), Spell(ds[0]))
    requires Concat(SpellAll(cs)) == h && Concat(SpellAll(ds)) == t
    requires Concat(RenderAll(cs)) == rh && Concat(RenderAll(ds)) == rt
    ensures LatexFormatter(h + t) == rh + rt
  {
    ChunkedAppend(cs, ds);
    LatexChunks(cs + ds);
    ConcatAppend(SpellAll(cs), SpellAll(ds));
    ConcatAppend(RenderAll(cs), RenderAll(ds));
  }

  /** The symmetric entry template `|A+-<<B>>|`. */
  function SymmetricText(a: string, b: string): string {
    "|" + a + "+-<<" + b + ">>|"
  }

  /** The asymmetric entry template `|A++<<+U>>--<<-L>>|`. */
  function AsymmetricText(a: string, u: string, l: string): string {
    "|" + a + "++<<+" + u + ">>--<<-" + l + ">>|"
  }

  /** The symmetric template becomes `$A\pm{B}$`. */
  lemma LatexSymmetric(a: string, b: string)
    requires Operand(a) && Operand(b)
    ensures LatexFormatter(SymmetricText(a, b)) == "$" + a + "\\pm{" + b + "}$"
  {
    var cs := [Token(0), Text(a), Token(1), Token(4), Text(b), Token(5), Token(0)];
    SymmetricChunks(a, b);
    SymmetricSpelled(a, b);
    LatexChunks(cs);
    SymmetricConcat(a, b);
  }

  lemma SymmetricChunks(a: string, b: string)
    requires Operand(a) && Operand(b)
    ensures Chunked([Token(0), Text(a), Token(1), Token(4), Text(b), Token(5), Token(0)])
  {
    var c5 := [Token(5), Token(0)];
    ChunkedCons(Token(5), [Token(0)]);
    assert [Token(5)] + [Token(0)] == c5;
    ChunkedCons(Text(b), c5);
    var c4 := [Text(b)] + c5;
    ChunkedCons(Token(4), c4);
    var c3 := [Token(4)] + c4;
    ChunkedCons(Token(1), c3);
    var c2 := [Token(1)] + c3;
    ChunkedCons(Text(a), c2);
    var c1 := [Text(a)] + c2;
    ChunkedCons(Token(0), c1);
    assert [Token(0)] + c1 == [Token(0), Text(a), Token(1), Token(4), Text(b), Token(5), Token(0)];
  }

  lemma SymmetricSpelled(a: string, b: string)
    requires Operand(a) && Operand(b)
    ensures SpellAll([Token(0), Text(a), Token(1), Token(4), Text(b), Token(5), Token(0)]) == ["|", a, "+-", "<<", b, ">>", "|"]
    ensures RenderAll([Token(0), Text(a), Token(1), Token(4), Text(b), Token(5), Token(0)]) == ["$", a, "\\pm", "{", b, "}", "$"]
  {
  }

  lemma SymmetricConcat(a: string, b: string)
    ensures Concat(["|", a, "+-", "<<", b, ">>", "|"]) == SymmetricText(a, b)
    ensures Concat(["$", a, "\\pm", "{", b, "}", "$"]) == "$" + a + "\\pm{" + b + "}$"
  {
    ConcatSeven("|", a, "+-", "<<", b, ">>", "|");
    ConcatSeven("$", a, "\\pm", "{", b, "}", "$");
    assert "+-<<" == "+-" + "<<" && ">>|" == ">>" + "|";
    assert "\\pm{" == "\\pm" + "{" && "}$" == "}" + "$";
  }

  /** The asymmetric template with plain `U` and `L` becomes
      `$A^{+U}_{-L}$`. */
  lemma LatexAsymmetric(a: string, u: string, l: string)
    requires Operand(a) && u != [] && Plain(u) && l != [] && Plain(l)
    ensures LatexFormatter(AsymmetricText(a, u, l)) == "$" + a + "^{+" + u + "}_{-" + l + "}$"
  {
    AsymmetricHalves(a, u, l);
    AsymmetricRegroup(a, u, l);
  }

  lemma AsymmetricHalves(a: string, u: string, l: string)
    requires Operand(a) && u != [] && Plain(u) && l != [] && Plain(l)
    ensures LatexFormatter(("|" + a + "++<<+" + u) + (">>--<<-" + l + ">>|"))
         == ("$" + a + "^{+" + u) + ("}_{-" + l + "}$")
  {
    SignedOperand('+', u);
    var cs := [Token(0), Text(a), Token(2), Token(4), Text("+" + u)];
    UpperChunks(a, "+" + u);
    UpperSpelled(a, "+" + u);
    LowerChunks(l);
    LowerSpelled(l);
    UpperText(a, u);
    LowerText(l);
    LatexHalves(cs, LowerChunkList(l), "|" + a + "++<<+" + u, ">>--<<-" + l + ">>|",
      "$" + a + "^{+" + u, "}_{-" + l + "}$");
  }

  lemma AsymmetricRegroup(a: string, u: string, l: string)
    ensures ("|" + a + "++<<+" + u) + (">>--<<-" + l + ">>|") == AsymmetricText(a, u, l)
    ensures ("$" + a + "^{+" + u) + ("}_{-" + l + "}$") == "$" + a + "^{+" + u + "}_{-" + l + "}$"
  {
  }

  /** With an upper part that starts with `-`, the `+` of the template and
      that `-` form the `+-` token: the template becomes `$A^{\pmM}_{-L}$`. */
  lemma LatexPlusMinus(a: string, m: string, l: string)
    requires Operand(a) && m != [] && Plain(m) && l != [] && Plain(l)
    ensures LatexFormatter(AsymmetricText(a, "-" + m, l)) == "$" + a + "^{\\pm" + m + "}_{-" + l + "}$"
  {
    PlusMinusHalves(a, m, l);
    PlusMinusRegroup(a, m, l);
  }

  lemma PlusMinusHalves(a: string, m: string, l: string)
    requires Operand(a) && m != [] && Plain(m) && l != [] && Plain(l)
    ensures LatexFormatter(("|" + a + "++<<+-" + m) + (">>--<<-" + l + ">>|"))
         == ("$" + a + "^{\\pm" + m) + ("}_{-" + l + "}$")
  {
    var cs := [Token(0), Text(a), Token(2), Token(4), Token(1), Text(m)];
    PlusMinusChunks(a, m);
    PlusMinusSpelled(a, m);
    LowerChunks(l);
    LowerSpelled(l);
    PlusMinusText(a, m);
    LowerText(l);
    LatexHalves(cs, LowerChunkList(l), "|" + a + "++<<+-" + m, ">>--<<-" + l + ">>|",
      "$" + a + "^{\\pm" + m, "}_{-" + l + "}$");
  }

  lemma PlusMinusRegroup(a: string, m: string, l: string)
    ensures ("|" + a + "++<<+-" + m) + (">>--<<-" + l + ">>|") == AsymmetricText(a, "-" + m, l)
    ensures ("$" + a + "^{\\pm" + m) + ("}_{-" + l + "}$") == "$" + a + "^{\\pm" + m + "}_{-" + l + "}$"
  {
    assert "++<<+" + ("-" + m) == "++<<+-" + m;
  }

  /** The chunks of an asymmetric entry after its superscript:
      `>>--<<-L>>|`. */
  function LowerChunkList(l: string): seq<Chunk> {
    [Token(5), Token(3), Token(4), Text("-" + l), Token(5), Token(0)]
  }

  lemma LowerChunks(l: string)
    requires l != [] && Plain(l)
    ensures Chunked(LowerChunkList(l))
  {
    SignedOperand('-', l);
    var c4 := [Token(5), Token(0)];
    ChunkedCons(Token(5), [Token(0)]);
    assert [Token(5)] + [Token(0)] == c4;
    ChunkedCons(Text("-" + l), c4);
    var c3 := [Text("-" + l)] + c4;
    ChunkedCons(Token(4), c3);
    var c2 := [Token(4)] + c3;
    ChunkedCons(Token(3), c2);
    var c1 := [Token(3)] + c2;
    ChunkedCons(Token(5), c1);
    assert [Token(5)] + c1 == LowerChunkList(l);
  }

  lemma LowerSpelled(l: string)
    requires l != [] && Plain(l)
    ensures SpellAll(LowerChunkList(l)) == [">>", "--", "<<", "-" + l, ">>", "|"]
    ensures RenderAll(LowerChunkList(l)) == ["}", "_", "{", "-" + l, "}", "$"]
  {
    SignedOperand('-', l);
  }

  lemma LowerText(l: string)
    ensures Concat([">>", "--", "<<", "-" + l, ">>", "|"]) == ">>--<<-" + l + ">>|"
    ensures Concat(["}", "_", "{", "-" + l, "}", "$"]) == "}_{-" + l + "}$"
  {
    ConcatSix(">>", "--", "<<", "-" + l, ">>", "|");
    ConcatSix("}", "_", "{", "-" + l, "}", "$");
    assert ">>--<<-" == ">>" + "--" + "<<" + "-" && ">>|" == ">>" + "|";
    assert "}_{-" == "}" + "_" + "{" + "-" && "}$" == "}" + "$";
  }

  /** With a lower part that starts with `-`, the `-` of the template and
      that `-` form the `--` token: the template becomes `$A^{+U}_{_M}$`. */
  lemma LatexMinusMinus(a: string, u: string, m: string)
    requires Operand(a) && u != [] && Plain(u) && m != [] && Plain(m)
    ensures LatexFormatter(AsymmetricText(a, u, "-" + m)) == "$" + a + "^{+" + u + "}_{_" + m + "}$"
  {
    MinusMinusHalves(a, u, m);
    MinusMinusRegroup(a, u, m);
  }

  lemma MinusMinusHalves(a: string, u: string, m: string)
    requires Operand(a) && u != [] && Plain(u) && m != [] && Plain(m)
    ensures LatexFormatter(("|" + a + "++<<+" + u) + (">>--<<--" + m + ">>|"))
         == ("$" + a + "^{+" + u) + ("}_{_" + m + "}$")
  {
    SignedOperand('+', u);
    var cs := [Token(0), Text(a), Token(2), Token(4), Text("+" + u)];
    UpperChunks(a, "+" + u);
    UpperSpelled(a, "+" + u);
    NegLowerChunks(m);
    NegLowerSpelled(m);
    UpperText(a, u);
    NegLowerText(m);
    LatexHalves(cs, NegLowerChunkList(m), "|" + a + "++<<+" + u, ">>--<<--" + m + ">>|",
      "$" + a + "^{+" + u, "}_{_" + m + "}$");
  }

  lemma MinusMinusRegroup(a: string, u: string, m: string)
    ensures ("|" + a + "++<<+" + u) + (">>--<<--" + m + ">>|") == AsymmetricText(a, u, "-" + m)
    ensures ("$" + a + "^{+" + u) + ("}_{_" + m + "}$") == "$" + a + "^{+" + u + "}_{_" + m + "}$"
  {
    assert ">>--<<-" + ("-" + m) == ">>--<<--" + m;
  }

  /** With both parts starting with `-`, both signs merge into tokens: the
      template becomes `$A^{\pmN}_{_M}$`. */
  lemma LatexBothNegative(a: string, n: string, m: string)
    requires Operand(a) && n != [] && Plain(n) && m != [] && Plain(m)
    ensures LatexFormatter(AsymmetricText(a, "-" + n, "-" + m)) == "$" + a + "^{\\pm" + n + "}_{_" + m + "}$"
  {
    BothNegativeHalves(a, n, m);
    BothNegativeRegroup(a, n, m);
  }

  lemma BothNegativeHalves(a: string, n: string, m: string)
    requires Operand(a) && n != [] && Plain(n) && m != [] && Plain(m)
    ensures LatexFormatter(("|" + a + "++<<+-" + n) + (">>--<<--" + m + ">>|"))
         == ("$" + a + "^{\\pm" + n) + ("}_{_" + m + "}$")
  {
    var cs := [Token(0), Text(a), Token(2), Token(4), Token(1), Text(n)];
    PlusMinusChunks(a, n);
    PlusMinusSpelled(a, n);
    NegLowerChunks(m);
    NegLowerSpelled(m);
    PlusMinusText(a, n);
    NegLowerText(m);
    LatexHalves(cs, NegLowerChunkList(m), "|" + a + "++<<+-" + n, ">>--<<--" + m + ">>|",
      "$" + a + "^{\\pm" + n, "}_{_" + m + "}$");
  }

  lemma BothNegativeRegroup(a: string, n: string, m: string)
    ensures ("|" + a + "++<<+-" + n) + (">>--<<--" + m + ">>|") == AsymmetricText(a, "-" + n, "-" + m)
    ensures ("$" + a + "^{\\pm" + n) + ("}_{_" + m + "}$") == "$" + a + "^{\\pm" + n + "}_{_" + m + "}$"
  {
    assert "++<<+" + ("-" + n) == "++<<+-" + n;
    assert ">>--<<-" + ("-" + m) == ">>--<<--" + m;
  }

  /** The chunks of an asymmetric entry after its superscript when the
      lower part starts with `-`: `>>--<<--M>>|`. */
  function NegLowerChunkList(m: string): seq<Chunk> {
    [Token(5), Token(3), Token(4), Token(3), Text(m), Token(5), Token(0)]
  }

  lemma NegLowerChunks(m: string)
    requires m != [] && Plain(m)
    ensures Chunked(NegLowerChunkList(m))
  {
    assert Operand(m);
    var c5 := [Token(5), Token(0)];
    ChunkedCons(Token(5), [Token(0)]);
    assert [Token(5)] + [Token(0)] == c5;
    ChunkedCons(Text(m), c5);
    var c4 := [Text(m)] + c5;
    ChunkedCons(Token(3), c4);
    var c3 := [Token(3)] + c4;
    ChunkedCons(Token(4), c3);
    var c2 := [Token(4)] + c3;
    ChunkedCons(Token(3), c2);
    var c1 := [Token(3)] + c2;
    ChunkedCons(Token(5), c1);
    assert [Token(5)] + c1 == NegLowerChunkList(m);
  }

  lemma NegLowerSpelled(m: string)
    requires m != [] && Plain(m)
    ensures SpellAll(NegLowerChunkList(m)) == [">>", "--", "<<", "--", m, ">>", "|"]
    ensures RenderAll(NegLowerChunkList(m)) == ["}", "_", "{", "_", m, "}", "$"]
  {
    assert Operand(m);
  }

  lemma NegLowerText(m: string)
    ensures Concat([">>", "--", "<<", "--", m, ">>", "|"]) == ">>--<<--" + m + ">>|"
    ensures Concat(["}", "_", "{", "_", m, "}", "$"]) == "}_{_" + m + "}$"
  {
    ConcatSeven(">>", "--", "<<", "--", m, ">>", "|");
    ConcatSeven("}", "_", "{", "_", m, "}", "$");
    assert ">>--<<--" == ">>" + "--" + "<<" + "--" && ">>|" == ">>" + "|";
    assert "}_{_" == "}" + "_" + "{" + "_" && "}$" == "}" + "$";
  }

  lemma UpperChunks(a: string, su: string)
    requires Operand(a) && Operand(su)
    ensures Chunked([Token(0), Text(a), Token(2), Token(4), Text(su)])
  {
    var c3 := [Token(4), Text(su)];
    ChunkedCons(Token(4), [Text(su)]);
    assert [Token(4)] + [Text(su)] == c3;
    ChunkedCons(Token(2), c3);
    var c2 := [Token(2)] + c3;
    ChunkedCons(Text(a), c2);
    var c1 := [Text(a)] + c2;
    ChunkedCons(Token(0), c1);
    assert [Token(0)] + c1 == [Token(0), Text(a), Token(2), Token(4), Text(su)];
  }

  lemma UpperSpelled(a: string, su: string)
    requires Operand(a) && Operand(su)
    ensures SpellAll([Token(0), Text(a), Token(2), Token(4), Text(su)]) == ["|", a, "++", "<<", su]
    ensures RenderAll([Token(0), Text(a), Token(2), Token(4), Text(su)]) == ["$", a, "^", "{", su]
  {
  }

  lemma UpperText(a: string, u: string)
    ensures Concat(["|", a, "++", "<<", "+" + u]) == "|" + a + "++<<+" + u
    ensures Concat(["$", a, "^", "{", "+" + u]) == "$" + a + "^{+" + u
  {
    ConcatFive("|", a, "++", "<<", "+" + u);
    ConcatFive("$", a, "^", "{", "+" + u);
    assert "++<<+" == "++" + "<<" + "+" && "^{+" == "^" + "{" + "+";
  }

  lemma PlusMinusChunks(a: string, m: string)
    requires Operand(a) && m != [] && Plain(m)
    ensures Chunked([Token(0), Text(a), Token(2), Token(4), Token(1), Text(m)])
  {
    assert Operand(m);
    var c4 := [Token(1), Text(m)];
    ChunkedCons(Token(1), [Text(m)]);
    assert [Token(1)] + [Text(m)] == c4;
    ChunkedCons(Token(4), c4);
    var c3 := [Token(4)] + c4;
    ChunkedCons(Token(2), c3);
    var c2 := [Token(2)] + c3;
    ChunkedCons(Text(a), c2);
    var c1 := [Text(a)] + c2;
    ChunkedCons(Token(0), c1);
    assert [Token(0)] + c1 == [Token(0), Text(a), Token(2), Token(4), Token(1), Text(m)];
  }

  lemma PlusMinusSpelled(a: string, m: string)
    requires Operand(a) && m != [] && Plain(m)
    ensures SpellAll([Token(0), Text(a), Token(2), Token(4), Token(1), Text(m)]) == ["|", a, "++", "<<", "+-", m]
    ensures RenderAll([Token(0), Text(a), Token(2), Token(4), Token(1), Text(m)]) == ["$", a, "^", "{", "\\pm", m]
  {
    assert Operand(m);
  }

  lemma PlusMinusText(a: string, m: string)
    ensures Concat(["|", a, "++", "<<", "+-", m]) == "|" + a + "++<<+-" + m
    ensures Concat(["$", a, "^", "{", "\\pm", m]) == "$" + a + "^{\\pm" + m
  {
    ConcatSix("|", a, "++", "<<", "+-", m);
    ConcatSix("$", a, "^", "{", "\\pm", m);
    assert "++<<+-" == "++" + "<<" + "+-" && "^{\\pm" == "^" + "{" + "\\pm";
  }

  lemma ConcatFour(p0: string, p1: string, p2: string, p3: string)
    ensures Concat([p0, p1, p2, p3]) == p0 + p1 + p2 + p3
  {
    var ps := [p0, p1, p2, p3];
    assert ps[3..][1..] == [];
    assert Concat(ps[3..]) == p3;
    assert ps[2..][1..] == ps[3..];
    assert Concat(ps[2..]) == p2 + p3;
    assert ps[1..][1..] == ps[2..];
    assert Concat(ps[1..]) == p1 + p2 + p3;
  }

  lemma ConcatFive(p0: string, p1: string, p2: string, p3: string, p4: string)
    ensures Concat([p0, p1, p2, p3, p4]) == p0 + p1 + p2 + p3 + p4
  {
    var ps := [p0, p1, p2, p3, p4];
    assert ps[1..] == [p1, p2, p3, p4];
    ConcatFour(p1, p2, p3, p4);
  }

  lemma ConcatSix(p0: string, p1: string, p2: string, p3: string, p4: string, p5: string)
    ensures Concat([p0, p1, p2, p3, p4, p5]) == p0 + p1 + p2 + p3 + p4 + p5
  {
    var ps := [p0, p1, p2, p3, p4, p5];
    assert ps[1..] == [p1, p2, p3, p4, p5];
    ConcatFive(p1, p2, p3, p4, p5);
  }

  lemma ConcatSeven(p0: string, p1: string, p2: string, p3: string, p4: string, p5: string, p6: string)
    ensures Concat([p0, p1, p2, p3, p4, p5, p6]) == p0 + p1 + p2 + p3 + p4 + p5 + p6
  {
    var ps := [p0, p1, p2, p3, p4, p5, p6];
    assert ps[1..] == [p1, p2, p3, p4, p5, p6];
    ConcatSix(p1, p2, p3, p4, p5, p6);
  }
}
