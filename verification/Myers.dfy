/**
  MyersMatcher (include/bitcask/myers.hpp): decides `distance(pattern, text) <= k` with one 64-bit
  word per text byte. A column of the dynamic-programming matrix is kept as the signs of its vertical
  differences; the matcher is proved to decide exactly what the recurrence of EditDistance decides.
  Only bits below the pattern length mean anything: carries and shifts move upwards, so whatever is
  in the bits above never reaches them.
 */
module Myers {
  import opened Bytes
  import opened EditDistance
  import opened Levenshtein
  import opened Word64

  // ---------------------------------------------------------------------------------------
  // The word operations of one column, as the loop body computes them
  // ---------------------------------------------------------------------------------------

  /** `(((eq & vp) + vp) ^ vp) | eq` */
  function Xh(eq: word, vp: word): word {
    Or(Xor(Add(And(eq, vp), vp), vp), eq)
  }

  /** `vn | ~(xh | vp)` */
  function Ph(xh: word, vp: word, vn: word): word {
    Or(vn, Not(Or(xh, vp)))
  }

  /** `vp & xh` */
  function Mh(xh: word, vp: word): word {
    And(vp, xh)
  }

  /** What carry propagation computes: a bit of xh is a match, or a horizontal decrease one row up. */
  lemma XhBit(eq: word, vp: word, i: nat)
    requires i < 64
    ensures var xh := Xh(eq, vp); xh[i] <==> eq[i] || (i > 0 && Mh(xh, vp)[i - 1])
  {
    SumBit(And(eq, vp), vp, false, i);
    if i > 0 {
      SumBit(And(eq, vp), vp, false, i - 1);
    }
  }

  // ---------------------------------------------------------------------------------------
  // One column of the matrix as two words
  // ---------------------------------------------------------------------------------------

  /** vp and vn hold the places where column j rises and falls by one. */
  ghost predicate EncodesColumn(p: seq<byte>, t: seq<byte>, j: nat, vp: word, vn: word)
    requires |p| <= 64 && j <= |t|
  {
    forall i :: 0 <= i < |p| ==>
      && (vp[i] <==> D(p, i + 1, t, j) == D(p, i, t, j) + 1)
      && (vn[i] <==> D(p, i + 1, t, j) + 1 == D(p, i, t, j))
  }

  /** eq holds the places of the pattern where byte c stands. */
  predicate EncodesMatches(p: seq<byte>, c: byte, eq: word)
    requires |p| <= 64
  {
    forall i :: 0 <= i < |p| ==> (eq[i] <==> p[i] == c)
  }

  /** Row i + 1 rises (falls) from column j to column j + 1 exactly where ph (mh) has a one. */
  lemma {:induction false} HorizontalSigns(p: seq<byte>, t: seq<byte>, j: nat, eq: word, vp: word, vn: word, i: nat)
    requires i < |p| <= 64 && j < |t|
    requires EncodesColumn(p, t, j, vp, vn) && EncodesMatches(p, t[j], eq)
    ensures Ph(Xh(eq, vp), vp, vn)[i] <==> D(p, i + 1, t, j + 1) == D(p, i + 1, t, j) + 1
    ensures Mh(Xh(eq, vp), vp)[i] <==> D(p, i + 1, t, j + 1) + 1 == D(p, i + 1, t, j)
  {
    if i > 0 {
      HorizontalSigns(p, t, j, eq, vp, vn, i - 1);
    }
    XhBit(eq, vp, i);
    DiagonalFree(p, i, t, j);
    DiagonalStep(p, i, t, j);
    VerticalStep(p, i, t, j);
    HorizontalStep(p, i, t, j);
  }

  /** The words after the shift by one encode the next column. */
  lemma NextColumn(p: seq<byte>, t: seq<byte>, j: nat, eq: word, vp: word, vn: word)
    requires |p| <= 64 && j < |t|
    requires EncodesColumn(p, t, j, vp, vn) && EncodesMatches(p, t[j], eq)
    ensures var ph, mh := Or(Shl1(Ph(Xh(eq, vp), vp, vn)), OneAt(0)), Shl1(Mh(Xh(eq, vp), vp));
            EncodesColumn(p, t, j + 1, Or(mh, Not(Or(Or(eq, vn), ph))), And(ph, Or(eq, vn)))
  {
    var ph, mh := Or(Shl1(Ph(Xh(eq, vp), vp, vn)), OneAt(0)), Shl1(Mh(Xh(eq, vp), vp));
    var vp', vn' := Or(mh, Not(Or(Or(eq, vn), ph))), And(ph, Or(eq, vn));
    forall i | 0 <= i < |p|
      ensures vp'[i] <==> D(p, i + 1, t, j + 1) == D(p, i, t, j + 1) + 1
      ensures vn'[i] <==> D(p, i + 1, t, j + 1) + 1 == D(p, i, t, j + 1)
    {
      if i > 0 {
        HorizontalSigns(p, t, j, eq, vp, vn, i - 1);
      }
      DiagonalFree(p, i, t, j);
      DiagonalStep(p, i, t, j);
      VerticalStep(p, i, t, j);
      HorizontalStep(p, i, t, j);
    }
  }

  // ---------------------------------------------------------------------------------------
  // The matcher
  // ---------------------------------------------------------------------------------------

  class MyersMatcher {
    const m: nat
    const peq: array<word>
    const pattern: seq<byte>
    /** The string the matcher was built for; `pattern` keeps it only when it is longer than 64. */
    ghost const source: seq<byte>

    ghost predicate Valid()
      reads this, peq
    {
      && m == |source| && peq.Length == 256
      && (m > 64 ==> pattern == source)
      && (0 < m <= 64 ==> forall c: byte :: EncodesMatches(source, c, peq[c]))
    }

    constructor (p: seq<byte>)
      ensures Valid() && source == p && fresh(peq)
    {
      m := |p|;
      source := p;
      pattern := if |p| > 64 then p else [];
      peq := new word[256](_ => ZERO);
      new;
      if m == 0 || m > 64 {
        return;
      }
      for i := 0 to m
        invariant forall c: byte, k :: 0 <= k < i ==> (peq[c][k] <==> p[k] == c)
        invariant forall c: byte, k :: i <= k < 64 ==> !peq[c][k]
      {
        peq[p[i]] := Or(peq[p[i]], OneAt(i));
      }
    }

    /** One column of the recurrence. */
    method Column(text: seq<byte>, j: nat, vp: word, vn: word, score: int) returns (vp': word, vn': word, score': int)
      requires Valid() && 0 < m <= 64 && j < |text|
      requires EncodesColumn(source, text, j, vp, vn) && score == D(source, m, text, j)
      ensures EncodesColumn(source, text, j + 1, vp', vn') && score' == D(source, m, text, j + 1)
    {
      var eq := peq[text[j]];
      var xv := Or(eq, vn);
      var xh := Or(Xor(Add(And(eq, vp), vp), vp), eq);
      var ph := Or(vn, Not(Or(xh, vp)));
      var mh := And(vp, xh);
      HorizontalSigns(source, text, j, eq, vp, vn, m - 1);
      HorizontalStep(source, m, text, j);
      NextColumn(source, text, j, eq, vp, vn);
      score' := if ph[m - 1] then score + 1 else if mh[m - 1] then score - 1 else score;
      ph := Or(Shl1(ph), OneAt(0));
      mh := Shl1(mh);
      vp' := Or(mh, Not(Or(xv, ph)));
      vn' := And(ph, xv);
    }

    /** The column loop with its early exit. */
    method Scan(text: seq<byte>, k: uint32) returns (yes: bool)
      requires Valid() && 0 < m <= 64
      ensures yes <==> Distance(source, text) <= k
    {
      var vp: word := ALL_ONES;
      var vn: word := ZERO;
      var score: int := m;
      var n := |text|;
      for j := 0 to n
        invariant EncodesColumn(source, text, j, vp, vn)
        invariant score == D(source, m, text, j)
      {
        vp, vn, score := Column(text, j, vp, vn, score);
        if score > k as int + (n - j - 1) {
          ColumnsBound(source, m, text, j + 1, n);
          return false;
        }
      }
      return score <= k as int;
    }

    /** Is the distance of the pattern and `text` at most `k`? */
    method Within(text: seq<byte>, k: uint32) returns (yes: bool)
      requires Valid()
      ensures m <= 64 ==> (yes <==> Distance(source, text) <= k)
      ensures m > 64 ==> (yes <==> Wrapped(source, m, text, |text|) <= k)
      ensures m > 64 && LengthsOk(m, |text|) ==> (yes <==> Distance(source, text) <= k)
    {
      if m == 0 {
        return |text| <= k;
      }
      if m > 64 {
        var d := LevenshteinDistance(pattern, text);
        return d <= k;
      }
      yes := Scan(text, k);
    }
  }
}
