/** The edit distance: a two-row dynamic program that finds the length of a shortest edit script. */
module EditDistance {
  import opened Sequences
  import opened Texts

  // ----- edit scripts

  /** b results from a by inserting, deleting or substituting at most one byte. */
  ghost predicate OneEdit(a: Text, b: Text) {
    exists x: Text, m: Text, k: Text, y: Text :: Edits(a, b, x, m, k, y)
  }

  ghost predicate Edits(a: Text, b: Text, x: Text, m: Text, k: Text, y: Text) {
    a == x + m + y && b == x + k + y && |m| <= 1 && |k| <= 1
  }

  /** A script lists every intermediate text. */
  ghost predicate Script(texts: seq<Text>, a: Text, b: Text) {
    && |texts| > 0 && texts[0] == a && texts[|texts| - 1] == b
    && forall i :: 0 <= i < |texts| - 1 ==> OneEdit(texts[i], texts[i + 1])
  }

  /** The number of edits in a script. */
  ghost function Length(texts: seq<Text>): int {
    |texts| - 1
  }

  // ----- the recurrence

  function Min(a: nat, b: nat, c: nat): nat {
    if a <= b && a <= c then a else if b <= c then b else c
  }

  function Cost(c: byte, d: byte): nat {
    if c == d then 0 else 1
  }

  /** The first entries of a table row, given the row above it. */
  function RowFrom(first: nat, c: byte, b: Text, above: seq<nat>, j: nat): (row: seq<nat>)
    requires j <= |b| && |above| == |b| + 1
    ensures |row| == j + 1
  {
    if j == 0 then [first]
    else
      var row := RowFrom(first, c, b, above, j - 1);
      row + [Min(row[j - 1] + 1, above[j] + 1, above[j - 1] + Cost(c, b[j - 1]))]
  }

  /** Row i of the table: the distances of the first i bytes of a from every prefix of b. */
  function Row(a: Text, b: Text, i: nat): (row: seq<nat>)
    requires i <= |a|
    ensures |row| == |b| + 1
  {
    if i == 0 then seq(|b| + 1, j => if j > 0 then j else 0)
    else RowFrom(i, a[i - 1], b, Row(a, b, i - 1), |b|)
  }

  /** The distance of the first i bytes of a from the first j bytes of b. */
  function Prefixes(a: Text, b: Text, i: nat, j: nat): nat
    requires i <= |a| && j <= |b|
  {
    Row(a, b, i)[j]
  }

  lemma {:induction false} RowPrefix(first: nat, c: byte, b: Text, above: seq<nat>, j: nat, k: nat)
    requires j <= k <= |b| && |above| == |b| + 1
    ensures RowFrom(first, c, b, above, k)[j] == RowFrom(first, c, b, above, j)[j]
    decreases k
  {
    if j < k {
      RowPrefix(first, c, b, above, j, k - 1);
    }
  }

  /** The recurrence over last bytes. */
  lemma Recurrence(a: Text, b: Text, i: nat, j: nat)
    requires i <= |a| && j <= |b|
    ensures i == 0 ==> Prefixes(a, b, i, j) == j
    ensures j == 0 ==> Prefixes(a, b, i, j) == i
    ensures i > 0 && j > 0 ==>
              Prefixes(a, b, i, j) == Min(Prefixes(a, b, i, j - 1) + 1, Prefixes(a, b, i - 1, j) + 1,
                                          Prefixes(a, b, i - 1, j - 1) + Cost(a[i - 1], b[j - 1]))
  {
    if i > 0 {
      var above := Row(a, b, i - 1);
      RowPrefix(i, a[i - 1], b, above, j, |b|);
      if j > 0 {
        RowPrefix(i, a[i - 1], b, above, j - 1, j);
        RowPrefix(i, a[i - 1], b, above, j - 1, |b|);
      }
    }
  }

  function Distance(a: Text, b: Text): nat {
    Prefixes(a, b, |a|, |b|)
  }

  /** a and c agree but for the m bytes of a, and the k bytes of c, at position p. */
  ghost predicate Differ(a: Text, c: Text, p: nat, m: nat, k: nat) {
    && p + m <= |a| && p + k <= |c| && |a| - m == |c| - k
    && (forall i :: 0 <= i < p ==> a[i] == c[i])
    && a[p + m..] == c[p + k..]
  }

  lemma {:induction false} SamePrefix(a: Text, c: Text, p: nat, m: nat, k: nat, b: Text, i: nat, j: nat)
    requires Differ(a, c, p, m, k) && i <= p && j <= |b|
    ensures Prefixes(a, b, i, j) == Prefixes(c, b, i, j)
    decreases i + j
  {
    Recurrence(a, b, i, j);
    Recurrence(c, b, i, j);
    if i > 0 && j > 0 {
      SamePrefix(a, c, p, m, k, b, i, j - 1);
      SamePrefix(a, c, p, m, k, b, i - 1, j);
      SamePrefix(a, c, p, m, k, b, i - 1, j - 1);
    }
  }

  /** One byte more on either side moves the distance by at most one. */
  lemma {:induction false} PrefixSteps(a: Text, b: Text, i: nat, j: nat)
    requires i <= |a| && j <= |b|
    ensures j > 0 ==> Prefixes(a, b, i, j) <= Prefixes(a, b, i, j - 1) + 1
    ensures i > 0 ==> Prefixes(a, b, i, j) <= Prefixes(a, b, i - 1, j) + 1
    ensures i > 0 ==> Prefixes(a, b, i - 1, j) <= Prefixes(a, b, i, j) + 1
    decreases i + j
  {
    Recurrence(a, b, i, j);
    if i > 0 { Recurrence(a, b, i - 1, j); }
    if j > 0 { Recurrence(a, b, i, j - 1); }
    if i > 0 && j > 0 {
      PrefixSteps(a, b, i, j - 1);
      PrefixSteps(a, b, i - 1, j);
    }
  }

  /** One edit anywhere moves the distance by at most one: where the edit is ... */
  lemma {:induction false} EditHere(a: Text, c: Text, p: nat, m: nat, k: nat, b: Text, j: nat)
    requires Differ(a, c, p, m, k) && m <= 1 && k <= 1 && j <= |b|
    ensures Prefixes(a, b, p + m, j) <= Prefixes(c, b, p + k, j) + 1
    decreases j
  {
    SamePrefix(a, c, p, m, k, b, p, j);
    Recurrence(a, b, p + m, j);
    Recurrence(c, b, p + k, j);
    if m == 1 && k == 1 {
      if j > 0 {
        EditHere(a, c, p, m, k, b, j - 1);
        SamePrefix(a, c, p, m, k, b, p, j - 1);
      }
    } else if m == 1 {
      PrefixSteps(a, b, p + 1, j);
    } else if k == 1 {
      PrefixSteps(c, b, p + 1, j);
    }
  }

  /** Two cells with equal last bytes are as close as their neighbours. */
  lemma AlikeCells(a: Text, c: Text, i: nat, l: nat, b: Text, j: nat)
    requires 0 < i <= |a| && 0 < l <= |c| && 0 < j <= |b| && a[i - 1] == c[l - 1]
    requires Prefixes(a, b, i, j - 1) <= Prefixes(c, b, l, j - 1) + 1
    requires Prefixes(a, b, i - 1, j) <= Prefixes(c, b, l - 1, j) + 1
    requires Prefixes(a, b, i - 1, j - 1) <= Prefixes(c, b, l - 1, j - 1) + 1
    ensures Prefixes(a, b, i, j) <= Prefixes(c, b, l, j) + 1
  {
    Recurrence(a, b, i, j);
    Recurrence(c, b, l, j);
  }

  /** ... and everywhere behind it, at the positions i of a and l of c that correspond. */
  lemma {:induction false} EditBefore(
    a: Text, c: Text, p: nat, m: nat, k: nat, b: Text, i: nat, l: nat, j: nat)
    requires Differ(a, c, p, m, k) && m <= 1 && k <= 1
    requires p + m <= i <= |a| && i - m == l - k && j <= |b|
    ensures Prefixes(a, b, i, j) <= Prefixes(c, b, l, j) + 1
    decreases i + j
  {
    if i == p + m {
      EditHere(a, c, p, m, k, b, j);
    } else if j == 0 {
      Recurrence(a, b, i, 0);
      Recurrence(c, b, l, 0);
    } else {
      SameBehind(a, c, p, m, k, i - 1, l - 1);
      EditBefore(a, c, p, m, k, b, i, l, j - 1);
      EditBefore(a, c, p, m, k, b, i - 1, l - 1, j);
      EditBefore(a, c, p, m, k, b, i - 1, l - 1, j - 1);
      AlikeCells(a, c, i, l, b, j);
    }
  }

  lemma SameBehind(a: Text, c: Text, p: nat, m: nat, k: nat, i: nat, l: nat)
    requires Differ(a, c, p, m, k) && p + m <= i < |a| && i - m == l - k
    ensures l < |c| && a[i] == c[l]
  {
  }

  lemma EditLipschitz(a: Text, c: Text, b: Text)
    requires OneEdit(a, c)
    ensures Distance(a, b) <= Distance(c, b) + 1
  {
    var x, m, k, y :| Edits(a, c, x, m, k, y);
    EditBefore(a, c, |x|, |m|, |k|, b, |a|, |c|, |b|);
  }

  lemma {:induction false} DistanceToSelf(a: Text, i: nat)
    requires i <= |a|
    ensures Prefixes(a, a, i, i) == 0
  {
    Recurrence(a, a, i, i);
    if i > 0 {
      DistanceToSelf(a, i - 1);
    }
  }

  /** No script is shorter than the distance. */
  lemma {:induction false} ScriptAtLeastDistance(texts: seq<Text>, a: Text, b: Text)
    requires Script(texts, a, b)
    ensures Length(texts) >= Distance(a, b)
    decreases |texts|
  {
    if |texts| == 1 {
      DistanceToSelf(a, |a|);
    } else {
      ScriptAtLeastDistance(texts[1..], texts[1], b);
      assert OneEdit(texts[0], texts[1]);
      EditLipschitz(a, texts[1], b);
    }
  }

  /** The texts of a script, each followed by one more byte. */
  ghost function Followed(texts: seq<Text>, c: byte): seq<Text> {
    seq(|texts|, i requires 0 <= i < |texts| => texts[i] + [c])
  }

  lemma FollowedScript(texts: seq<Text>, a: Text, b: Text, c: byte)
    requires Script(texts, a, b)
    ensures Script(Followed(texts, c), a + [c], b + [c])
  {
    var fs := Followed(texts, c);
    forall i | 0 <= i < |fs| - 1 ensures OneEdit(fs[i], fs[i + 1]) {
      assert OneEdit(texts[i], texts[i + 1]);
      var x, m, k, y :| Edits(texts[i], texts[i + 1], x, m, k, y);
      assert Edits(fs[i], fs[i + 1], x, m, k, y + [c]);
    }
  }

  lemma ThenInsert(texts: seq<Text>, a: Text, b: Text, d: byte)
    requires Script(texts, a, b)
    ensures Script(texts + [b + [d]], a, b + [d])
  {
    assert Edits(b, b + [d], b, [], [d], []);
    assert OneEdit(b, b + [d]);
  }

  lemma DeleteFirst(texts: seq<Text>, a: Text, c: byte, b: Text)
    requires Script(texts, a, b)
    ensures Script([a + [c]] + texts, a + [c], b)
  {
    assert Edits(a + [c], a, a, [c], [], []);
    assert OneEdit(a + [c], a);
  }

  lemma ThenSubstitute(texts: seq<Text>, a: Text, c: byte, b: Text, d: byte) returns (longer: seq<Text>)
    requires Script(texts, a, b)
    ensures Script(longer, a + [c], b + [d]) && Length(longer) == Length(texts) + Cost(c, d)
  {
    FollowedScript(texts, a, b, c);
    longer := Followed(texts, c);
    if c != d {
      assert Edits(b + [c], b + [d], b, [c], [d], []);
      assert OneEdit(b + [c], b + [d]);
      longer := longer + [b + [d]];
    }
  }

  /** Every cell but the first comes from one of its neighbours. */
  lemma BestStep(a: Text, b: Text, i: nat, j: nat)
    requires i <= |a| && j <= |b|
    ensures Prefixes(a, b, 0, 0) == 0
    ensures i + j > 0 ==>
              || (j > 0 && Prefixes(a, b, i, j) == Prefixes(a, b, i, j - 1) + 1)
              || (i > 0 && Prefixes(a, b, i, j) == Prefixes(a, b, i - 1, j) + 1)
              || (i > 0 && j > 0 &&
                  Prefixes(a, b, i, j) == Prefixes(a, b, i - 1, j - 1) + Cost(a[i - 1], b[j - 1]))
  {
    Recurrence(a, b, 0, 0);
    Recurrence(a, b, i, j);
    if j > 0 { Recurrence(a, b, i, j - 1); }
    if i > 0 { Recurrence(a, b, i - 1, j); }
  }

  /** Some script is exactly as long as the distance. */
  lemma {:induction false} ShortestScript(a: Text, b: Text, i: nat, j: nat) returns (texts: seq<Text>)
    requires i <= |a| && j <= |b|
    ensures Script(texts, a[..i], b[..j]) && Length(texts) == Prefixes(a, b, i, j)
    decreases i + j
  {
    BestStep(a, b, i, j);
    assert i > 0 ==> a[..i] == a[..i - 1] + [a[i - 1]];
    assert j > 0 ==> b[..j] == b[..j - 1] + [b[j - 1]];
    if i == 0 && j == 0 {
      texts := [[]];
    } else if j > 0 && Prefixes(a, b, i, j) == Prefixes(a, b, i, j - 1) + 1 {
      texts := ShortestScript(a, b, i, j - 1);
      ThenInsert(texts, a[..i], b[..j - 1], b[j - 1]);
      texts := texts + [b[..j]];
    } else if i > 0 && Prefixes(a, b, i, j) == Prefixes(a, b, i - 1, j) + 1 {
      texts := ShortestScript(a, b, i - 1, j);
      DeleteFirst(texts, a[..i - 1], a[i - 1], b[..j]);
      texts := [a[..i]] + texts;
    } else {
      texts := ShortestScript(a, b, i - 1, j - 1);
      texts := ThenSubstitute(texts, a[..i - 1], a[i - 1], b[..j - 1], b[j - 1]);
    }
  }

  lemma Shortest(a: Text, b: Text) returns (texts: seq<Text>)
    ensures Script(texts, a, b) && Length(texts) == Distance(a, b)
  {
    texts := ShortestScript(a, b, |a|, |b|);
    assert a[..|a|] == a && b[..|b|] == b;
  }

  /** What the distance is: the length of a shortest edit script. */
  lemma DistanceIsShortest(a: Text, b: Text)
    ensures exists texts :: Script(texts, a, b) && Length(texts) == Distance(a, b)
    ensures forall texts :: Script(texts, a, b) ==> Length(texts) >= Distance(a, b)
  {
    var shortest := Shortest(a, b);
    forall texts | Script(texts, a, b) ensures Length(texts) >= Distance(a, b) {
      ScriptAtLeastDistance(texts, a, b);
    }
  }

  // ----- the distance is a metric

  lemma DistanceZero(a: Text, b: Text)
    ensures Distance(a, b) == 0 <==> a == b
  {
    DistanceToSelf(a, |a|);
    var texts := Shortest(a, b);
  }

  lemma DistanceSymmetric(a: Text, b: Text)
    ensures Distance(a, b) == Distance(b, a)
  {
    DistanceAtMostReverse(a, b);
    DistanceAtMostReverse(b, a);
  }

  lemma DistanceAtMostReverse(a: Text, b: Text)
    ensures Distance(b, a) <= Distance(a, b)
  {
    var texts := Shortest(a, b);
    var back := seq(|texts|, i requires 0 <= i < |texts| => texts[|texts| - 1 - i]);
    forall i | 0 <= i < |back| - 1 ensures OneEdit(back[i], back[i + 1]) {
      var j := |texts| - 2 - i;
      assert OneEdit(texts[j], texts[j + 1]);
      var x, m, k, y :| Edits(texts[j], texts[j + 1], x, m, k, y);
      assert Edits(back[i], back[i + 1], x, k, m, y);
    }
    ScriptAtLeastDistance(back, b, a);
  }

  lemma DistanceTriangle(a: Text, b: Text, c: Text)
    ensures Distance(a, c) <= Distance(a, b) + Distance(b, c)
  {
    var first := Shortest(a, b);
    var second := Shortest(b, c);
    var both := first + second[1..];
    forall i | 0 <= i < |both| - 1 ensures OneEdit(both[i], both[i + 1]) {
      if i >= |first| - 1 {
        var j := i - (|first| - 1);
        assert both[i] == second[j] && both[i + 1] == second[j + 1];
      }
    }
    ScriptAtLeastDistance(both, a, c);
  }

  lemma {:induction false} PrefixBounds(a: Text, b: Text, i: nat, j: nat)
    requires i <= |a| && j <= |b|
    ensures i - j <= Prefixes(a, b, i, j) && j - i <= Prefixes(a, b, i, j)
    ensures Prefixes(a, b, i, j) <= if i <= j then j else i
    decreases i + j
  {
    Recurrence(a, b, i, j);
    if i > 0 && j > 0 {
      PrefixBounds(a, b, i, j - 1);
      PrefixBounds(a, b, i - 1, j);
      PrefixBounds(a, b, i - 1, j - 1);
    }
  }

  lemma DistanceBounds(a: Text, b: Text)
    ensures |a| - |b| <= Distance(a, b) && |b| - |a| <= Distance(a, b)
    ensures Distance(a, b) <= if |a| <= |b| then |b| else |a|
  {
    PrefixBounds(a, b, |a|, |b|);
  }

  // ----- the program

  method MinInt(first: nat, rest: seq<nat>) returns (min: nat)
    ensures min == first || min in rest
    ensures min <= first && forall i :: 0 <= i < |rest| ==> min <= rest[i]
  {
    min := first;
    for i := 0 to |rest|
      invariant min == first || min in rest
      invariant min <= first && forall j :: 0 <= j < i ==> min <= rest[j]
    {
      if rest[i] < min {
        min := rest[i];
      }
    }
  }

  method FillRow(a: Text, b: Text, i: nat, prev: array<nat>) returns (cur: array<nat>)
    requires 0 < i <= |a| && prev.Length == |b| + 1
    requires forall j :: 0 <= j <= |b| ==> prev[j] == Prefixes(a, b, i - 1, j)
    ensures fresh(cur) && cur.Length == |b| + 1
    ensures forall j :: 0 <= j <= |b| ==> cur[j] == Prefixes(a, b, i, j)
  {
    cur := new nat[|b| + 1];
    cur[0] := i;
    Recurrence(a, b, i, 0);
    for j := 1 to |b| + 1
      invariant forall l :: 0 <= l < j ==> cur[l] == Prefixes(a, b, i, l)
    {
      Recurrence(a, b, i, j);
      var cost := 0;
      if a[i - 1] != b[j - 1] {
        cost := 1;
      }
      var rest := [prev[j] + 1, prev[j - 1] + cost];
      assert rest[0] == prev[j] + 1 && rest[1] == prev[j - 1] + cost;
      cur[j] := MinInt(cur[j - 1] + 1, rest);
    }
  }

  method LevenshteinDistance(a: Text, b: Text) returns (r: nat)
    ensures r == Distance(a, b)
    ensures exists texts :: Script(texts, a, b) && Length(texts) == r
    ensures forall texts :: Script(texts, a, b) ==> Length(texts) >= r
  {
    DistanceIsShortest(a, b);
    if a == b {
      DistanceToSelf(a, |a|);
      return 0;
    }
    Recurrence(a, b, |a|, |b|);
    if a == [] {
      return |b|;
    }
    if b == [] {
      return |a|;
    }
    var prev := new nat[|b| + 1];
    for j := 0 to |b| + 1
      invariant forall l :: 0 <= l < j ==> prev[l] == l
    {
      prev[j] := j;
    }
    for i := 1 to |a| + 1
      invariant fresh(prev) && prev.Length == |b| + 1
      invariant forall j :: 0 <= j <= |b| ==> prev[j] == Prefixes(a, b, i - 1, j)
    {
      prev := FillRow(a, b, i, prev);
    }
    return prev[|b|];
  }
}
