/**
  What Levenshtein distance means: it is a metric, and it is the least number of single insertions,
  deletions and substitutions that turn one string into the other.
 */
module EditScripts {
  import opened EditDistance

  // ---------------------------------------------------------------------------------------
  // The distance is a metric
  // ---------------------------------------------------------------------------------------

  lemma {:induction false} Triangle<T>(a: seq<T>, i: nat, b: seq<T>, j: nat, c: seq<T>, k: nat)
    requires i <= |a| && j <= |b| && k <= |c|
    ensures D(a, i, c, k) <= D(a, i, b, j) + D(b, j, c, k)
    decreases i + j + k
  {
    if i == 0 {
      LengthBounds(b, j, c, k);
    } else if j == 0 {
      AtMostBothLengths(a, i, c, k);
    } else if k == 0 {
      LengthBounds(a, i, b, j);
    } else if D(a, i, b, j) == D(a, i - 1, b, j) + 1 {
      Triangle(a, i - 1, b, j, c, k);
    } else if D(b, j, c, k) == D(b, j, c, k - 1) + 1 {
      Triangle(a, i, b, j, c, k - 1);
    } else if D(a, i, b, j) == D(a, i, b, j - 1) + 1 {
      if D(b, j, c, k) == D(b, j - 1, c, k) + 1 {
        Triangle(a, i, b, j - 1, c, k);
      } else {
        Triangle(a, i, b, j - 1, c, k - 1);
      }
    } else if D(b, j, c, k) == D(b, j - 1, c, k) + 1 {
      Triangle(a, i - 1, b, j - 1, c, k);
    } else {
      Triangle(a, i - 1, b, j - 1, c, k - 1);
    }
  }

  lemma {:induction false} ZeroIffEqual<T>(a: seq<T>, i: nat, b: seq<T>, j: nat)
    requires i <= |a| && j <= |b|
    ensures D(a, i, b, j) == 0 <==> a[..i] == b[..j]
    decreases i
  {
    LengthBounds(a, i, b, j);
    if i == j && i > 0 {
      ZeroIffEqual(a, i - 1, b, j - 1);
      assert a[..i] == a[..i - 1] + [a[i - 1]];
      assert b[..j] == b[..j - 1] + [b[j - 1]];
    }
  }

  /** Levenshtein distance is a metric on strings. */
  lemma DistanceIsMetric<T>(a: seq<T>, b: seq<T>, c: seq<T>)
    ensures Distance(a, b) == 0 <==> a == b
    ensures Distance(a, b) == Distance(b, a)
    ensures Distance(a, c) <= Distance(a, b) + Distance(b, c)
  {
    ZeroIffEqual(a, |a|, b, |b|);
    assert a[..|a|] == a && b[..|b|] == b;
    Symmetric(a, |a|, b, |b|);
    Triangle(a, |a|, b, |b|, c, |c|);
  }

  // ---------------------------------------------------------------------------------------
  // The distance counts edits
  // ---------------------------------------------------------------------------------------

  /** One edit of a string, at a position of that string. */
  datatype Edit<T> = Insert(at: nat, value: T) | Delete(at: nat) | Substitute(at: nat, value: T)

  predicate Applicable<T>(e: Edit<T>, s: seq<T>) {
    if e.Insert? then e.at <= |s| else e.at < |s|
  }

  function Apply<T>(e: Edit<T>, s: seq<T>): seq<T>
    requires Applicable(e, s)
  {
    match e
    case Insert(at, value) => s[..at] + [value] + s[at..]
    case Delete(at) => s[..at] + s[at + 1..]
    case Substitute(at, value) => s[at := value]
  }

  /** The script, applied edit by edit, turns a into b. */
  predicate Turns<T(==)>(script: seq<Edit<T>>, a: seq<T>, b: seq<T>)
    decreases script, 1
  {
    if script == [] then a == b else TurnsFirst(script, a, b)
  }

  predicate TurnsFirst<T(==)>(script: seq<Edit<T>>, a: seq<T>, b: seq<T>)
    requires script != []
    decreases script, 0
  {
    Applicable(script[0], a) && Turns(script[1..], Apply(script[0], a), b)
  }

  /** A common suffix can be stripped without raising the distance. */
  lemma {:induction false} CommonSuffix<T>(p: seq<T>, q: seq<T>, s: seq<T>)
    ensures Distance(p + s, q + s) <= Distance(p, q)
  {
    if s == [] {
      assert p + s == p && q + s == q;
    } else {
      var r := s[..|s| - 1];
      CommonSuffix(p, q, r);
      assert s == r + [s[|s| - 1]];
      assert p + s == (p + r) + [s[|s| - 1]] && q + s == (q + r) + [s[|s| - 1]];
      OneMoreMatch(p + r, q + r, s[|s| - 1]);
    }
  }

  lemma OneMoreMatch<T>(p: seq<T>, q: seq<T>, x: T)
    ensures Distance(p + [x], q + [x]) <= Distance(p, q)
  {
    SuffixesIrrelevant(p, [x], |p|, q, [x], |q|);
    CellBounds(p + [x], |p| + 1, q + [x], |q| + 1);
  }

  /** Equal prefixes cost nothing, so one further byte on either side costs at most one. */
  lemma OneByteApart<T>(x: seq<T>, p: seq<T>, q: seq<T>, y: seq<T>)
    requires |p| <= 1 && |q| <= 1
    ensures Distance(x + p + y, x + q + y) <= 1
  {
    ZeroIffEqual(x + p, |x|, x + q, |x|);
    assert (x + p)[..|x|] == x == (x + q)[..|x|];
    CellBounds(x + p, |x + p|, x + q, |x + q|);
    CommonSuffix(x + p, x + q, y);
  }

  lemma OneEditAway<T>(e: Edit<T>, s: seq<T>)
    requires Applicable(e, s)
    ensures Distance(s, Apply(e, s)) <= 1
  {
    match e
    case Insert(at, value) =>
      OneByteApart(s[..at], [], [value], s[at..]);
      assert s == s[..at] + [] + s[at..];
    case Delete(at) =>
      OneByteApart(s[..at], [s[at]], [], s[at + 1..]);
      assert s == s[..at] + [s[at]] + s[at + 1..];
      assert Apply(e, s) == s[..at] + [] + s[at + 1..];
    case Substitute(at, value) =>
      OneByteApart(s[..at], [s[at]], [value], s[at + 1..]);
      assert s == s[..at] + [s[at]] + s[at + 1..];
      assert Apply(e, s) == s[..at] + [value] + s[at + 1..];
  }

  /** No script is shorter than the distance. */
  lemma {:induction false} ScriptsAreNoShorter<T>(script: seq<Edit<T>>, a: seq<T>, b: seq<T>)
    requires Turns(script, a, b)
    ensures Distance(a, b) <= |script|
  {
    if script == [] {
      DistanceIsMetric(a, b, b);
    } else {
      var c := Apply(script[0], a);
      OneEditAway(script[0], a);
      ScriptsAreNoShorter(script[1..], c, b);
      DistanceIsMetric(a, c, b);
    }
  }

  lemma Prepend<T>(e: Edit<T>, script: seq<Edit<T>>, a: seq<T>, c: seq<T>, b: seq<T>)
    requires Applicable(e, a) && Apply(e, a) == c && Turns(script, c, b)
    ensures Turns([e] + script, a, b)
  {
    assert ([e] + script)[1..] == script;
  }

  lemma InsertFirst<T>(a: seq<T>, i: nat, y: T, s: seq<T>, rest: seq<Edit<T>>, goal: seq<T>)
    requires i <= |a| && Turns(rest, a[..i] + ([y] + s), goal)
    ensures Turns([Insert(i, y)] + rest, a[..i] + s, goal)
  {
    assert Apply(Insert(i, y), a[..i] + s) == a[..i] + ([y] + s);
    Prepend(Insert(i, y), rest, a[..i] + s, a[..i] + ([y] + s), goal);
  }

  lemma DeleteFirst<T>(a: seq<T>, i: nat, s: seq<T>, rest: seq<Edit<T>>, goal: seq<T>)
    requires 0 < i <= |a| && Turns(rest, a[..i - 1] + s, goal)
    ensures Turns([Delete(i - 1)] + rest, a[..i] + s, goal)
  {
    assert Apply(Delete(i - 1), a[..i] + s) == a[..i - 1] + s;
    Prepend(Delete(i - 1), rest, a[..i] + s, a[..i - 1] + s, goal);
  }

  lemma SubstituteFirst<T>(a: seq<T>, i: nat, y: T, s: seq<T>, rest: seq<Edit<T>>, goal: seq<T>)
    requires 0 < i <= |a| && Turns(rest, a[..i - 1] + ([y] + s), goal)
    ensures Turns([Substitute(i - 1, y)] + rest, a[..i] + s, goal)
  {
    assert Apply(Substitute(i - 1, y), a[..i] + s) == a[..i - 1] + ([y] + s);
    Prepend(Substitute(i - 1, y), rest, a[..i] + s, a[..i - 1] + ([y] + s), goal);
  }

  lemma LastMoved<T>(b: seq<T>, j: nat, s: seq<T>)
    requires 0 < j <= |b|
    ensures b[..j - 1] + ([b[j - 1]] + s) == b[..j] + s
  {
  }

  /** A script read off the matrix from its last cell. */
  ghost function Script<T>(a: seq<T>, i: nat, b: seq<T>, j: nat): seq<Edit<T>>
    requires i <= |a| && j <= |b|
    decreases i + j, 1
  {
    if i == 0 && j == 0 then [] else ScriptFrom(a, i, b, j)
  }

  ghost function ScriptFrom<T>(a: seq<T>, i: nat, b: seq<T>, j: nat): seq<Edit<T>>
    requires i <= |a| && j <= |b| && i + j > 0
    decreases i + j, 0
  {
    if i > 0 && D(a, i, b, j) == D(a, i - 1, b, j) + 1 then
      [Delete(i - 1)] + Script(a, i - 1, b, j)
    else if j > 0 && D(a, i, b, j) == D(a, i, b, j - 1) + 1 then
      [Insert(i, b[j - 1])] + Script(a, i, b, j - 1)
    else if a[i - 1] == b[j - 1] then
      Script(a, i - 1, b, j - 1)
    else
      [Substitute(i - 1, b[j - 1])] + Script(a, i - 1, b, j - 1)
  }

  lemma {:induction false} ScriptLength<T>(a: seq<T>, i: nat, b: seq<T>, j: nat)
    requires i <= |a| && j <= |b|
    ensures |Script(a, i, b, j)| == D(a, i, b, j)
    decreases i + j
  {
    if i > 0 && D(a, i, b, j) == D(a, i - 1, b, j) + 1 {
      ScriptLength(a, i - 1, b, j);
    } else if j > 0 && D(a, i, b, j) == D(a, i, b, j - 1) + 1 {
      ScriptLength(a, i, b, j - 1);
    } else if i > 0 && j > 0 {
      ScriptLength(a, i - 1, b, j - 1);
    }
  }

  lemma TurnsByDelete<T>(a: seq<T>, i: nat, b: seq<T>, j: nat, s: seq<T>)
    requires 0 < i <= |a| && j <= |b| && D(a, i, b, j) == D(a, i - 1, b, j) + 1
    requires Turns(Script(a, i - 1, b, j), a[..i - 1] + s, b[..j] + s)
    ensures Turns(Script(a, i, b, j), a[..i] + s, b[..j] + s)
  {
    assert Script(a, i, b, j) == ScriptFrom(a, i, b, j);
    DeleteFirst(a, i, s, Script(a, i - 1, b, j), b[..j] + s);
  }

  lemma TurnsByInsert<T>(a: seq<T>, i: nat, b: seq<T>, j: nat, s: seq<T>)
    requires i <= |a| && 0 < j <= |b| && D(a, i, b, j) == D(a, i, b, j - 1) + 1
    requires i > 0 ==> D(a, i, b, j) != D(a, i - 1, b, j) + 1
    requires Turns(Script(a, i, b, j - 1), a[..i] + ([b[j - 1]] + s), b[..j - 1] + ([b[j - 1]] + s))
    ensures Turns(Script(a, i, b, j), a[..i] + s, b[..j] + s)
  {
    assert Script(a, i, b, j) == ScriptFrom(a, i, b, j);
    LastMoved(b, j, s);
    InsertFirst(a, i, b[j - 1], s, Script(a, i, b, j - 1), b[..j] + s);
  }

  lemma TurnsDiagonally<T>(a: seq<T>, i: nat, b: seq<T>, j: nat, s: seq<T>)
    requires 0 < i <= |a| && 0 < j <= |b|
    requires D(a, i, b, j) != D(a, i - 1, b, j) + 1 && D(a, i, b, j) != D(a, i, b, j - 1) + 1
    requires Turns(Script(a, i - 1, b, j - 1), a[..i - 1] + ([b[j - 1]] + s), b[..j - 1] + ([b[j - 1]] + s))
    ensures Turns(Script(a, i, b, j), a[..i] + s, b[..j] + s)
  {
    assert Script(a, i, b, j) == ScriptFrom(a, i, b, j);
    LastMoved(b, j, s);
    if a[i - 1] == b[j - 1] {
      LastMoved(a, i, s);
    } else {
      SubstituteFirst(a, i, b[j - 1], s, Script(a, i - 1, b, j - 1), b[..j] + s);
    }
  }

  lemma {:induction false} ScriptTurns<T>(a: seq<T>, i: nat, b: seq<T>, j: nat, s: seq<T>)
    requires i <= |a| && j <= |b|
    ensures Turns(Script(a, i, b, j), a[..i] + s, b[..j] + s)
    decreases i + j
  {
    if i > 0 && D(a, i, b, j) == D(a, i - 1, b, j) + 1 {
      ScriptTurns(a, i - 1, b, j, s);
      TurnsByDelete(a, i, b, j, s);
    } else if j > 0 && D(a, i, b, j) == D(a, i, b, j - 1) + 1 {
      ScriptTurns(a, i, b, j - 1, [b[j - 1]] + s);
      TurnsByInsert(a, i, b, j, s);
    } else if i > 0 && j > 0 {
      ScriptTurns(a, i - 1, b, j - 1, [b[j - 1]] + s);
      TurnsDiagonally(a, i, b, j, s);
    } else {
      assert a[..i] + s == b[..j] + s;
    }
  }

  /** The distance is the least number of insertions, deletions and substitutions. */
  lemma DistanceIsLeastEdits<T>(a: seq<T>, b: seq<T>)
    ensures exists script :: Turns(script, a, b) && |script| == Distance(a, b)
    ensures forall script :: Turns(script, a, b) ==> |script| >= Distance(a, b)
  {
    ScriptLength(a, |a|, b, |b|);
    ScriptTurns(a, |a|, b, |b|, []);
    assert a[..|a|] + [] == a && b[..|b|] + [] == b;
    forall script | Turns(script, a, b)
      ensures |script| >= Distance(a, b)
    {
      ScriptsAreNoShorter(script, a, b);
    }
  }
}
