/** `error_column` of `astromy/latex.py`: a column of value-and-error
    entries written with placeholder tokens, and what `latex_formatter`
    makes of each entry. */
module Latex {
  import opened Wrappers
  import opened StrReplace
  import opened Decimal
  import opened LatexFormat

  /** The error `None.astype(float)` raises when the asymmetric form is asked
      for without upper errors. */
  datatype ColumnError = AttributeError(message: string)

  /** Row entry of the symmetric form: value, then one error. */
  function SymmetricEntry(x: int, err: int, round: nat): (e: string)
    ensures |e| >= 2 && e[0] == '|' && e[|e| - 1] == '|'
  {
    SymmetricText(Fmt(x, round), Fmt(err, round))
  }

  /** Row entry of the asymmetric form: value, then the upper error, then
      the lower error. */
  function AsymmetricEntry(x: int, upper: int, lower: int, round: nat): (e: string)
    ensures |e| >= 2 && e[0] == '|' && e[|e| - 1] == '|'
  {
    AsymmetricText(Fmt(x, round), Fmt(upper, round), Fmt(lower, round))
  }

  function Min(a: int, b: int): int {
    if a <= b then a else b
  }

  /** Python's `zip` of two arrays: pairs up to the shorter length. */
  function Zip(x: seq<int>, y: seq<int>): (z: seq<(int, int)>)
    ensures |z| == Min(|x|, |y|)
    ensures forall i :: 0 <= i < |z| ==> z[i] == (x[i], y[i])
  {
    seq(Min(|x|, |y|), i requires 0 <= i < Min(|x|, |y|) => (x[i], y[i]))
  }

  /** Python's `zip` of three arrays: triples up to the shortest length. */
  function Zip3(x: seq<int>, y: seq<int>, z: seq<int>): (r: seq<(int, int, int)>)
    ensures |r| == Min(Min(|x|, |y|), |z|)
    ensures forall i :: 0 <= i < |r| ==> r[i] == (x[i], y[i], z[i])
  {
    seq(Min(Min(|x|, |y|), |z|), i requires 0 <= i < Min(Min(|x|, |y|), |z|) => (x[i], y[i], z[i]))
  }

  /** The loop of `error_column`: append one formatted entry per zipped row
      to `col`, in row order. */
  method CollectRows<T>(rows: seq<T>, entry: T -> string) returns (col: seq<string>)
    ensures |col| == |rows|
    ensures forall i :: 0 <= i < |rows| ==> col[i] == entry(rows[i])
  {
    col := [];
    var i := 0;
    while i < |rows|
      invariant 0 <= i <= |rows|
      invariant |col| == i
      invariant forall k :: 0 <= k < i ==> col[k] == entry(rows[k])
    {
      col := col + [entry(rows[i])];
      i := i + 1;
    }
  }

  /** `error_column`: one entry per row of the zipped inputs. Values and
      errors are fixed-point numbers at precision `round`; `rXerr` is the
      optional upper-error array, read only when `sameErr` is false. */
  method ErrorColumn(x: seq<int>, lXerr: seq<int>, rXerr: Option<seq<int>>, round: nat, sameErr: bool)
    returns (r: Result<seq<string>, ColumnError>)
    ensures r.Failure? <==> !sameErr && rXerr.None?
    ensures r.Success? && sameErr ==>
      && |r.value| == Min(|x|, |lXerr|)
      && forall i :: 0 <= i < |r.value| ==> r.value[i] == SymmetricEntry(x[i], lXerr[i], round)
    ensures r.Success? && !sameErr ==>
      && |r.value| == Min(Min(|x|, |lXerr|), |rXerr.value|)
      && forall i :: 0 <= i < |r.value| ==> r.value[i] == AsymmetricEntry(x[i], rXerr.value[i], lXerr[i], round)
  {
    if sameErr {
      var col := CollectRows(Zip(x, lXerr), (row: (int, int)) => SymmetricEntry(row.0, row.1, round));
      r := Success(col);
    } else if rXerr.None? {
      r := Failure(AttributeError("'NoneType' object has no attribute 'astype'"));
    } else {
      var col := CollectRows(Zip3(x, lXerr, rXerr.value),
        (row: (int, int, int)) => AsymmetricEntry(row.0, row.2, row.1, round));
      r := Success(col);
    }
  }

  lemma MagnitudeChars(a: nat, round: nat)
    ensures Plain(Magnitude(a, round))
  {
    var m := Magnitude(a, round);
    var p := Pow10(round);
    DivMod(a, p);
    var intPart := Digits(a / p);
    if round > 0 {
      var pad := PadDigits(a % p, round);
      assert m == intPart + "." + pad;
      assert forall i :: 0 <= i < |m| ==> m[i] == '.' || IsDigit(m[i]);
    }
  }

  lemma FmtOperand(units: int, round: nat)
    ensures Operand(Fmt(units, round))
    ensures units >= 0 ==> Plain(Fmt(units, round))
    ensures units < 0 ==> Fmt(units, round) == "-" + Magnitude(-units, round)
  {
    MagnitudeChars(if units < 0 then -units else units, round);
  }

  /** Every symmetric row of `ErrorColumn` renders as `$x\pm{e}$`. */
  lemma LatexSymmetricEntry(x: int, err: int, round: nat)
    ensures LatexFormatter(SymmetricEntry(x, err, round))
         == "$" + Fmt(x, round) + "\\pm{" + Fmt(err, round) + "}$"
  {
    FmtOperand(x, round);
    FmtOperand(err, round);
    LatexSymmetric(Fmt(x, round), Fmt(err, round));
  }

  /** Every asymmetric row of `ErrorColumn` with non-negative errors renders
      as `$x^{+u}_{-l}$`. */
  lemma LatexAsymmetricEntry(x: int, upper: int, lower: int, round: nat)
    requires upper >= 0 && lower >= 0
    ensures LatexFormatter(AsymmetricEntry(x, upper, lower, round))
         == "$" + Fmt(x, round) + "^{+" + Fmt(upper, round) + "}_{-" + Fmt(lower, round) + "}$"
  {
    FmtOperand(x, round);
    FmtOperand(upper, round);
    FmtOperand(lower, round);
    LatexAsymmetric(Fmt(x, round), Fmt(upper, round), Fmt(lower, round));
  }

  /** A negative upper error `-e` loses its sign: the `+` the template puts
      before it and its own `-` form the `+-` token, so the superscript reads
      `\\pm` followed by `e`. */
  lemma LatexNegativeUpper(x: int, e: int, lower: int, round: nat)
    requires e > 0 && lower >= 0
    ensures LatexFormatter(AsymmetricEntry(x, -e, lower, round))
         == "$" + Fmt(x, round) + "^{\\pm" + Fmt(e, round) + "}_{-" + Fmt(lower, round) + "}$"
  {
    FmtOperand(x, round);
    FmtOperand(e, round);
    FmtOperand(lower, round);
    NegativeUpperEntry(x, e, lower, round);
    LatexPlusMinus(Fmt(x, round), Fmt(e, round), Fmt(lower, round));
  }

  /** A negative lower error `-e` loses its sign: the `-` the template puts
      before it and its own `-` form the `--` token, so the subscript reads
      `_` followed by `e`. */
  lemma LatexNegativeLower(x: int, upper: int, e: int, round: nat)
    requires upper >= 0 && e > 0
    ensures LatexFormatter(AsymmetricEntry(x, upper, -e, round))
         == "$" + Fmt(x, round) + "^{+" + Fmt(upper, round) + "}_{_" + Fmt(e, round) + "}$"
  {
    FmtOperand(x, round);
    FmtOperand(upper, round);
    FmtOperand(e, round);
    NegativeLowerEntry(x, upper, e, round);
    LatexMinusMinus(Fmt(x, round), Fmt(upper, round), Fmt(e, round));
  }

  /** With both errors negative, both signs are lost: the row renders as
      `$x^{\\pm u}_{_l}$`. */
  lemma LatexNegativeBoth(x: int, u: int, l: int, round: nat)
    requires u > 0 && l > 0
    ensures LatexFormatter(AsymmetricEntry(x, -u, -l, round))
         == "$" + Fmt(x, round) + "^{\\pm" + Fmt(u, round) + "}_{_" + Fmt(l, round) + "}$"
  {
    FmtOperand(x, round);
    FmtOperand(u, round);
    FmtOperand(l, round);
    NegativeBothEntry(x, u, l, round);
    LatexBothNegative(Fmt(x, round), Fmt(u, round), Fmt(l, round));
  }

  lemma NegativeLowerEntry(x: int, upper: int, e: int, round: nat)
    requires e > 0
    ensures AsymmetricEntry(x, upper, -e, round)
         == AsymmetricText(Fmt(x, round), Fmt(upper, round), "-" + Fmt(e, round))
  {
    FmtNegated(e, round);
  }

  lemma NegativeBothEntry(x: int, u: int, l: int, round: nat)
    requires u > 0 && l > 0
    ensures AsymmetricEntry(x, -u, -l, round)
         == AsymmetricText(Fmt(x, round), "-" + Fmt(u, round), "-" + Fmt(l, round))
  {
    FmtNegated(u, round);
    FmtNegated(l, round);
  }

  lemma NegativeUpperEntry(x: int, e: int, lower: int, round: nat)
    requires e > 0
    ensures AsymmetricEntry(x, -e, lower, round)
         == AsymmetricText(Fmt(x, round), "-" + Fmt(e, round), Fmt(lower, round))
  {
    FmtNegated(e, round);
  }

  /** The rendering of a negative number is a minus sign before the
      rendering of its magnitude. */
  lemma FmtNegated(e: int, round: nat)
    requires e > 0
    ensures Fmt(-e, round) == "-" + Fmt(e, round)
  {
  }
}
