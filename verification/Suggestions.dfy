/** "Did you mean": the closest allowed value. */
module Suggestions {
  import opened Sequences
  import opened Sorting
  import opened Texts
  import opened EditDistance

  function MaxSuggestionDistance(value: Text): nat {
    if |value| <= 4 then 2 else if |value| <= 10 then 3 else 4
  }

  /** The best candidate so far, or the empty text, and the distance to beat. */
  datatype Pick = Pick(best: Text, dist: nat)

  /** What is looked for, in normal form. `lower` and `trim` stand for the library's case folding and trimming. */
  datatype Query = Query(wanted: Text, lower: Text -> Text, trim: Text -> Text) {

    function Normal(c: Text): Text {
      lower(trim(c))
    }

    function DistanceTo(c: Text): nat {
      Distance(wanted, Normal(c))
    }

    /** c is a candidate at all. */
    predicate Usable(c: Text) {
      Normal(c) != [] && DistanceTo(c) <= MaxSuggestionDistance(wanted)
    }

    /** The tie-break: c takes the place of an equally close best. */
    predicate Replaces(c: Text, best: Text) {
      Less(Normal(c), lower(best))
    }

    /** One round of the search. */
    function Consider(pick: Pick, candidate: Text): Pick {
      var dist := DistanceTo(candidate);
      if Normal(candidate) != [] && dist <= pick.dist
         && (pick.best == [] || dist < pick.dist || Replaces(candidate, pick.best))
      then Pick(candidate, dist) else pick
    }

    function Closest(allowed: seq<Text>): Pick {
      if allowed == [] then Pick([], MaxSuggestionDistance(wanted))
      else Consider(Closest(allowed[..|allowed| - 1]), allowed[|allowed| - 1])
    }
  }

  function Suggestion(value: Text, allowed: seq<Text>, lower: Text -> Text, trim: Text -> Text): Text {
    var q := Query(lower(trim(value)), lower, trim);
    if q.wanted == [] || allowed == [] then [] else q.Closest(allowed).best
  }

  // ----- the best candidates

  /** c is usable and no usable candidate is closer. */
  ghost predicate Leads(q: Query, allowed: seq<Text>, c: Text) {
    c in allowed && q.Usable(c) && forall d :: d in allowed && q.Usable(d) ==> q.DistanceTo(c) <= q.DistanceTo(d)
  }

  ghost predicate NoneUsable(q: Query, allowed: seq<Text>) {
    forall c :: c in allowed ==> !q.Usable(c)
  }

  /** What the search has in hand leads what it has seen. */
  lemma {:induction false} ClosestLeads(q: Query, allowed: seq<Text>)
    requires q.Normal([]) == []
    ensures var pick := q.Closest(allowed);
            if pick.best == [] then NoneUsable(q, allowed) && pick.dist == MaxSuggestionDistance(q.wanted)
            else Leads(q, allowed, pick.best) && pick.dist == q.DistanceTo(pick.best)
    decreases |allowed|
  {
    if allowed != [] {
      var front := allowed[..|allowed| - 1];
      assert allowed == front + [allowed[|allowed| - 1]];
      ClosestLeads(q, front);
    }
  }

  // ----- how close a suggestion is, in edits

  /** At most k single-byte edits turn a into b. */
  ghost predicate WithinEdits(a: Text, b: Text, k: int) {
    exists texts :: Script(texts, a, b) && Length(texts) <= k
  }

  ghost predicate Near(wanted: Text, name: Text, k: int) {
    name != [] && WithinEdits(wanted, name, k)
  }

  /** Something is suggested exactly when the name of some candidate is at most k edits away,
      and then it is a candidate that near, and no candidate is nearer. */
  ghost predicate SuggestsWithin(
    wanted: Text, allowed: seq<Text>, lower: Text -> Text, trim: Text -> Text, k: int, r: Text)
  {
    && (r != [] <==> exists c :: c in allowed && Near(wanted, lower(trim(c)), k))
    && (r != [] ==> r in allowed && Near(wanted, lower(trim(r)), k))
    && (r != [] ==> forall c, j :: c in allowed && j <= k && Near(wanted, lower(trim(c)), j) ==>
          WithinEdits(wanted, lower(trim(r)), j))
  }

  /** Two edits for up to four bytes, three for up to ten, and four beyond. */
  ghost predicate SuggestsNear(value: Text, allowed: seq<Text>, lower: Text -> Text, trim: Text -> Text, r: Text) {
    var wanted := lower(trim(value));
    && (|wanted| == 0 ==> r == [])
    && (1 <= |wanted| <= 4 ==> SuggestsWithin(wanted, allowed, lower, trim, 2, r))
    && (5 <= |wanted| <= 10 ==> SuggestsWithin(wanted, allowed, lower, trim, 3, r))
    && (11 <= |wanted| ==> SuggestsWithin(wanted, allowed, lower, trim, 4, r))
  }

  lemma WithinIsDistance(a: Text, b: Text, k: int)
    ensures WithinEdits(a, b, k) <==> Distance(a, b) <= k
  {
    DistanceIsShortest(a, b);
  }

  lemma ClosestIsNear(q: Query, allowed: seq<Text>)
    requires q.Normal([]) == []
    ensures SuggestsWithin(
              q.wanted, allowed, q.lower, q.trim, MaxSuggestionDistance(q.wanted), q.Closest(allowed).best)
  {
    var r := q.Closest(allowed).best;
    ClosestLeads(q, allowed);
    forall c, j ensures WithinEdits(q.wanted, q.lower(q.trim(c)), j) <==> q.DistanceTo(c) <= j {
      WithinIsDistance(q.wanted, q.lower(q.trim(c)), j);
    }
    assert forall c :: Near(q.wanted, q.lower(q.trim(c)), MaxSuggestionDistance(q.wanted)) <==> q.Usable(c);
  }

  /** What is suggested for any candidates, in terms of edit scripts alone. */
  lemma SuggestionIsNear(value: Text, allowed: seq<Text>, lower: Text -> Text, trim: Text -> Text)
    requires lower(trim([])) == []
    ensures SuggestsNear(value, allowed, lower, trim, Suggestion(value, allowed, lower, trim))
  {
    ClosestIsNear(Query(lower(trim(value)), lower, trim), allowed);
  }

  // ----- which of the best candidates is suggested

  /** c is closer than d, or as close and first by name. */
  ghost predicate Beats(q: Query, c: Text, d: Text) {
    || q.DistanceTo(c) < q.DistanceTo(d)
    || (q.DistanceTo(c) == q.DistanceTo(d) && Less(q.Normal(c), q.Normal(d)))
  }

  /** r is empty when nothing is close enough, and otherwise the first of the best candidates. */
  ghost predicate IsSuggestion(q: Query, allowed: seq<Text>, r: Text) {
    if r == [] then forall i :: 0 <= i < |allowed| ==> !q.Usable(allowed[i])
    else exists k :: 0 <= k < |allowed| && allowed[k] == r && FirstBest(q, allowed, k)
  }

  ghost predicate FirstBest(q: Query, allowed: seq<Text>, k: nat)
    requires k < |allowed|
  {
    && q.Usable(allowed[k])
    && (forall i :: 0 <= i < |allowed| && q.Usable(allowed[i]) ==> !Beats(q, allowed[i], allowed[k]))
    && (forall i :: 0 <= i < k && q.Usable(allowed[i]) ==> Beats(q, allowed[k], allowed[i]))
  }

  lemma BeatsOrder(q: Query, a: Text, b: Text, c: Text)
    ensures !Beats(q, a, a)
    ensures Beats(q, a, b) && Beats(q, b, c) ==> Beats(q, a, c)
    ensures Beats(q, a, b) ==> !Beats(q, b, a)
    ensures !Beats(q, a, b) && !Beats(q, b, a) ==> q.Normal(a) == q.Normal(b)
  {
    LessIrreflexive(q.Normal(a));
    LessTotal(q.Normal(a), q.Normal(b));
    if Less(q.Normal(a), q.Normal(b)) && Less(q.Normal(b), q.Normal(c)) {
      LessTransitive(q.Normal(a), q.Normal(b), q.Normal(c));
    }
    LessAsymmetric(q.Normal(a), q.Normal(b));
  }

  lemma BeatsThrough(q: Query, a: Text, b: Text, c: Text)
    requires Beats(q, a, b) && !Beats(q, c, b)
    ensures Beats(q, a, c) && !Beats(q, c, a)
  {
    BeatsOrder(q, a, b, c);
    BeatsOrder(q, a, c, a);
    BeatsOrder(q, b, c, b);
  }

  /** Trimming changes the name of no candidate, so that the tie-break compares like with like. */
  ghost predicate Tidy(allowed: seq<Text>, lower: Text -> Text, trim: Text -> Text) {
    forall i :: 0 <= i < |allowed| ==> lower(allowed[i]) == lower(trim(allowed[i]))
  }

  lemma {:induction false} ClosestCorrect(q: Query, allowed: seq<Text>)
    requires Tidy(allowed, q.lower, q.trim) && q.Normal([]) == []
    ensures IsSuggestion(q, allowed, q.Closest(allowed).best)
    decreases |allowed|
  {
    if allowed != [] {
      var front, c := allowed[..|allowed| - 1], allowed[|allowed| - 1];
      ClosestCorrect(q, front);
      ClosestLeads(q, front);
      var pick := q.Closest(front);
      if pick.best == [] {
        FirstFound(q, allowed);
      } else {
        var k :| 0 <= k < |front| && front[k] == pick.best && FirstBest(q, front, k);
        assert q.lower(allowed[k]) == q.Normal(allowed[k]);
        OneMore(q, allowed, k);
      }
    }
  }

  /** Nothing was close enough before the last candidate. */
  lemma FirstFound(q: Query, allowed: seq<Text>)
    requires allowed != [] && IsSuggestion(q, allowed[..|allowed| - 1], [])
    ensures q.Usable(allowed[|allowed| - 1]) ==> FirstBest(q, allowed, |allowed| - 1)
    ensures !q.Usable(allowed[|allowed| - 1]) ==> IsSuggestion(q, allowed, [])
  {
    var last := |allowed| - 1;
    BeatsOrder(q, allowed[last], allowed[last], allowed[last]);
    forall i | 0 <= i < last ensures !q.Usable(allowed[i]) {
      assert allowed[i] == allowed[..last][i];
    }
  }

  lemma LastBeatsAll(q: Query, allowed: seq<Text>, k: nat)
    requires k < |allowed| - 1 && FirstBest(q, allowed[..|allowed| - 1], k)
    requires q.Usable(allowed[|allowed| - 1]) && Beats(q, allowed[|allowed| - 1], allowed[k])
    ensures FirstBest(q, allowed, |allowed| - 1)
  {
    var last := |allowed| - 1;
    forall i | 0 <= i < last && q.Usable(allowed[i])
      ensures Beats(q, allowed[last], allowed[i]) && !Beats(q, allowed[i], allowed[last])
    {
      assert allowed[..last][i] == allowed[i];
      BeatsThrough(q, allowed[last], allowed[k], allowed[i]);
    }
    BeatsOrder(q, allowed[last], allowed[last], allowed[last]);
  }

  lemma StaysFirstBest(q: Query, allowed: seq<Text>, k: nat)
    requires k < |allowed| - 1 && FirstBest(q, allowed[..|allowed| - 1], k)
    requires !(q.Usable(allowed[|allowed| - 1]) && Beats(q, allowed[|allowed| - 1], allowed[k]))
    ensures FirstBest(q, allowed, k)
  {
    var last := |allowed| - 1;
    forall i | 0 <= i < last && q.Usable(allowed[i])
      ensures !Beats(q, allowed[i], allowed[k]) && (i < k ==> Beats(q, allowed[k], allowed[i]))
    {
      assert allowed[..last][i] == allowed[i];
    }
  }

  /** The k-th candidate was the first of the best before the last one came. */
  lemma OneMore(q: Query, allowed: seq<Text>, k: nat)
    requires k < |allowed| - 1 && FirstBest(q, allowed[..|allowed| - 1], k)
    ensures var last := |allowed| - 1;
            if q.Usable(allowed[last]) && Beats(q, allowed[last], allowed[k])
            then FirstBest(q, allowed, last) else FirstBest(q, allowed, k)
  {
    if q.Usable(allowed[|allowed| - 1]) && Beats(q, allowed[|allowed| - 1], allowed[k]) {
      LastBeatsAll(q, allowed, k);
    } else {
      StaysFirstBest(q, allowed, k);
    }
  }

  /** For tidy candidates the search finds the first of the best, or nothing if nothing is close. */
  lemma SuggestionCorrect(value: Text, allowed: seq<Text>, lower: Text -> Text, trim: Text -> Text)
    requires Tidy(allowed, lower, trim) && lower(trim([])) == []
    ensures var q := Query(lower(trim(value)), lower, trim);
            q.wanted != [] ==> IsSuggestion(q, allowed, Suggestion(value, allowed, lower, trim))
    ensures SuggestsNear(value, allowed, lower, trim, Suggestion(value, allowed, lower, trim))
  {
    SuggestionIsNear(value, allowed, lower, trim);
    ClosestCorrect(Query(lower(trim(value)), lower, trim), allowed);
  }

  // ----- when the order of the candidates does not matter

  /** t lists the same candidates as s, perhaps in another order and, unless permuted, another number of times. */
  ghost predicate Rearranges(s: seq<Text>, t: seq<Text>, permuted: bool) {
    (forall c :: c in s <==> c in t) && (permuted ==> multiset(s) == multiset(t))
  }

  ghost predicate SameAnswer(q: Query, s: seq<Text>, permuted: bool) {
    forall t {:trigger Rearranges(s, t, permuted)} ::
      Rearranges(s, t, permuted) ==> q.Closest(t).best == q.Closest(s).best
  }

  /** r takes the place of every other leader, and none takes the place of r. */
  ghost predicate Settles(q: Query, s: seq<Text>, r: Text) {
    Leads(q, s, r) && forall c :: Leads(q, s, c) && c != r ==> q.Replaces(r, c) && !q.Replaces(c, r)
  }

  ghost predicate Settled(q: Query, s: seq<Text>) {
    NoneUsable(q, s) || exists r :: Settles(q, s, r)
  }

  /** Whatever else is listed, a settling candidate is suggested. */
  lemma {:induction false} WinnerStays(q: Query, s: seq<Text>, t: seq<Text>, r: Text)
    requires q.Normal([]) == [] && Settles(q, s, r)
    requires r in t && forall c :: c in t ==> c in s
    ensures q.Closest(t).best == r
    decreases |t|
  {
    var front, c := t[..|t| - 1], t[|t| - 1];
    assert t == front + [c] && c in s;
    ClosestLeads(q, front);
    if r in front {
      WinnerStays(q, s, front, r);
    } else {
      var b := q.Closest(front).best;
      assert b != [] && q.DistanceTo(b) == q.DistanceTo(r) ==> Leads(q, s, b);
    }
  }

  /** The best of two lists together is the best of the first, or is in the second. */
  lemma {:induction false} BestOfFirstOrInSecond(q: Query, s: seq<Text>, t: seq<Text>)
    ensures q.Closest(s + t).best == q.Closest(s).best || q.Closest(s + t).best in t
    decreases |t|
  {
    if t == [] {
      assert s + t == s;
    } else {
      var front := t[..|t| - 1];
      BestOfFirstOrInSecond(q, s, front);
      assert (s + t)[..|s + t| - 1] == s + front;
      assert t == front + [t[|t| - 1]];
    }
  }

  function Others(s: seq<Text>, c: Text): seq<Text> {
    Filter((x: Text) => x != c, s)
  }

  lemma OthersMember(s: seq<Text>, c: Text, x: Text)
    ensures x in Others(s, c) <==> x in s && x != c
  {
    FilterMember((y: Text) => y != c, s, x);
  }

  /** Two lists that would tell: c comes last, or c comes first and r second. */
  lemma Witnesses(s: seq<Text>, c: Text, r: Text, permuted: bool)
    requires c in s && r in s && c != r && (permuted ==> Distinct(s))
    ensures Rearranges(s, Others(s, c) + [c], permuted)
    ensures Rearranges(s, [c, r] + Others(Others(s, c), r), permuted)
  {
    var last, first := Others(s, c) + [c], [c, r] + Others(Others(s, c), r);
    forall x ensures x in s <==> x in last {
      OthersMember(s, c, x);
    }
    forall x ensures x in s <==> x in first {
      OthersMember(s, c, x);
      OthersMember(Others(s, c), r, x);
    }
    if permuted {
      OthersDistinct(s, c);
      OthersDistinct(Others(s, c), r);
      OthersMember(s, c, c);
      OthersMember(s, c, r);
      OthersMember(Others(s, c), r, c);
      OthersMember(Others(s, c), r, r);
      DistinctPermutation(s, last);
      DistinctPermutation(s, first);
    }
  }

  lemma OthersDistinct(s: seq<Text>, c: Text)
    requires Distinct(s)
    ensures Distinct(Others(s, c))
  {
    FilterDistinct((x: Text) => x != c, s);
  }

  /** If the answer is r for both telling lists, c and r are ordered by the tie-break, one way only. */
  lemma WitnessesTell(q: Query, s: seq<Text>, c: Text, r: Text)
    requires q.Normal([]) == [] && Leads(q, s, c) && Leads(q, s, r) && c != r
    requires q.Closest(Others(s, c) + [c]).best == r
    requires q.Closest([c, r] + Others(Others(s, c), r)).best == r
    ensures q.Replaces(r, c) && !q.Replaces(c, r)
  {
    var rest := Others(Others(s, c), r);
    OthersMember(Others(s, c), r, r);
    BestOfFirstOrInSecond(q, [c, r], rest);
    assert [c, r][..1] == [c] && [c][..0] == [];
    assert q.Closest([c]).best == c;
    assert q.Replaces(r, c);
    assert (Others(s, c) + [c])[..|Others(s, c)|] == Others(s, c);
    ClosestLeads(q, Others(s, c));
  }

  lemma WitnessesAgree(q: Query, s: seq<Text>, permuted: bool, r: Text, c: Text)
    requires (permuted ==> Distinct(s)) && SameAnswer(q, s, permuted)
    requires r == q.Closest(s).best && r in s && c in s && c != r
    ensures q.Closest(Others(s, c) + [c]).best == r
    ensures q.Closest([c, r] + Others(Others(s, c), r)).best == r
  {
    Witnesses(s, c, r, permuted);
  }

  lemma OtherLeaderLoses(q: Query, s: seq<Text>, permuted: bool, r: Text, c: Text)
    requires q.Normal([]) == [] && (permuted ==> Distinct(s)) && SameAnswer(q, s, permuted)
    requires r == q.Closest(s).best && Leads(q, s, r) && Leads(q, s, c) && c != r
    ensures q.Replaces(r, c) && !q.Replaces(c, r)
  {
    WitnessesAgree(q, s, permuted, r, c);
    WitnessesTell(q, s, c, r);
  }

  lemma SettledIfSameAnswer(q: Query, s: seq<Text>, permuted: bool)
    requires q.Normal([]) == [] && (permuted ==> Distinct(s)) && SameAnswer(q, s, permuted)
    ensures Settled(q, s)
  {
    var r := q.Closest(s).best;
    ClosestLeads(q, s);
    if r != [] {
      forall c | Leads(q, s, c) && c != r ensures q.Replaces(r, c) && !q.Replaces(c, r) {
        OtherLeaderLoses(q, s, permuted, r, c);
      }
      assert Settles(q, s, r);
    }
  }

  lemma SameAnswerIfSettled(q: Query, s: seq<Text>, permuted: bool)
    requires q.Normal([]) == [] && Settled(q, s)
    ensures SameAnswer(q, s, permuted)
  {
    ClosestLeads(q, s);
    forall t | Rearranges(s, t, permuted) ensures q.Closest(t).best == q.Closest(s).best {
      ClosestLeads(q, t);
      if w :| Settles(q, s, w) {
        WinnerStays(q, s, s, w);
        WinnerStays(q, s, t, w);
      }
    }
  }

  /** The exact condition: all rearrangements of the candidates give the same answer if and only if none is
      usable, or one leader takes the place of every other leader and is never replaced. */
  lemma SameAnswerIffSettled(q: Query, s: seq<Text>, permuted: bool)
    requires q.Normal([]) == [] && (permuted ==> Distinct(s))
    ensures SameAnswer(q, s, permuted) <==> Settled(q, s)
  {
    if SameAnswer(q, s, permuted) {
      SettledIfSameAnswer(q, s, permuted);
    } else if Settled(q, s) {
      SameAnswerIfSettled(q, s, permuted);
    }
  }

  /** The same for suggestions: for every list with the same members, and, for a list without repeats,
      for every permutation. */
  lemma OrderIsIrrelevantIff(value: Text, allowed: seq<Text>, lower: Text -> Text, trim: Text -> Text, permuted: bool)
    requires lower(trim([])) == [] && (permuted ==> Distinct(allowed))
    ensures var q := Query(lower(trim(value)), lower, trim);
            (forall t :: Rearranges(allowed, t, permuted) ==>
               Suggestion(value, t, lower, trim) == Suggestion(value, allowed, lower, trim))
            <==> q.wanted == [] || Settled(q, allowed)
  {
    var q := Query(lower(trim(value)), lower, trim);
    SameAnswerIffSettled(q, allowed, permuted);
    if q.wanted != [] {
      forall t ensures Suggestion(value, t, lower, trim) == q.Closest(t).best {}
    }
  }

  /** Candidates in normal form always settle it. */
  lemma NormalFormSettles(q: Query, allowed: seq<Text>)
    requires q.Normal([]) == [] && forall c :: c in allowed ==> q.Normal(c) == q.lower(c) == c
    ensures Settled(q, allowed)
  {
    assert Tidy(allowed, q.lower, q.trim) by {
      assert forall i :: 0 <= i < |allowed| ==> allowed[i] in allowed;
    }
    ClosestCorrect(q, allowed);
    ClosestLeads(q, allowed);
    var r := q.Closest(allowed).best;
    if r != [] {
      forall c | Leads(q, allowed, c) && c != r ensures q.Replaces(r, c) && !q.Replaces(c, r) {
        var i :| 0 <= i < |allowed| && allowed[i] == c;
        BeatsOrder(q, r, c, r);
      }
      assert Settles(q, allowed, r);
    }
  }

  /** So for candidates in normal form neither order nor repetition matters. */
  lemma SuggestionUnordered(
    value: Text, allowed: seq<Text>, others: seq<Text>, lower: Text -> Text, trim: Text -> Text)
    requires lower(trim([])) == [] && forall c :: c in allowed ==> lower(trim(c)) == lower(c) == c
    requires forall c :: c in allowed <==> c in others
    ensures Suggestion(value, allowed, lower, trim) == Suggestion(value, others, lower, trim)
  {
    NormalFormSettles(Query(lower(trim(value)), lower, trim), allowed);
    OrderIsIrrelevantIff(value, allowed, lower, trim, false);
    assert Rearranges(allowed, others, false);
  }

  // ----- inputs for which the order matters, at the folding and trimming of ASCII text

  function LowerByte(c: byte): byte {
    if 65 <= c <= 90 then c + 32 else c
  }

  function AsciiLower(t: Text): Text {
    Map(LowerByte, t)
  }

  /** Tab, line feed, vertical tab, form feed, carriage return, blank. */
  predicate Blank(c: byte) {
    9 <= c <= 13 || c == 32
  }

  function AsciiTrim(t: Text): Text {
    if t == [] then []
    else if Blank(t[0]) then AsciiTrim(t[1..])
    else if Blank(t[|t| - 1]) then AsciiTrim(t[..|t| - 1])
    else t
  }

  lemma ClosestOfTwo(q: Query, a: Text, b: Text)
    ensures q.Closest([a, b]) == q.Consider(q.Consider(Pick([], MaxSuggestionDistance(q.wanted)), a), b)
  {
    assert [a, b][..1] == [a] && [a][..0] == [];
    assert q.Closest([a]) == q.Consider(Pick([], MaxSuggestionDistance(q.wanted)), a);
  }

  lemma OneByteApart(a: byte, b: byte)
    requires a != b
    ensures Distance([a], [b]) == 1
  {
    DistanceBounds([a], [b]);
    DistanceZero([a], [b]);
  }

  /** "A" and "a" have the same name, so the first listed is suggested for "b". */
  lemma LetterCaseBreaksTies()
    ensures Suggestion([98], [[65], [97]], AsciiLower, AsciiTrim) == [65]
    ensures Suggestion([98], [[97], [65]], AsciiLower, AsciiTrim) == [97]
  {
    var q := Query([98], AsciiLower, AsciiTrim);
    OneByteApart(98, 97);
    assert AsciiLower([65]) == [97] && AsciiLower([97]) == [97] && AsciiLower([98]) == [98];
    ClosestOfTwo(q, [65], [97]);
    ClosestOfTwo(q, [97], [65]);
    LessIrreflexive([97]);
  }

  /** " b" and "a" are equally close to "c", but the tie-break reads the blank: the first listed stays. */
  lemma BlanksBreakTies()
    ensures Suggestion([99], [[32, 98], [97]], AsciiLower, AsciiTrim) == [32, 98]
    ensures Suggestion([99], [[97], [32, 98]], AsciiLower, AsciiTrim) == [97]
  {
    var q := Query([99], AsciiLower, AsciiTrim);
    var blankB: Text, a: Text := [32, 98], [97];
    OneByteApart(99, 98);
    OneByteApart(99, 97);
    assert blankB[1..] == [98] && AsciiTrim(blankB) == [98];
    assert AsciiLower(blankB) == blankB && AsciiLower([98]) == [98] && AsciiLower(a) == a && AsciiLower([99]) == [99];
    ClosestOfTwo(q, blankB, a);
    ClosestOfTwo(q, a, blankB);
  }

  // ----- the program

  method SuggestClosest(value: Text, allowed: seq<Text>, lower: Text -> Text, trim: Text -> Text)
    returns (best: Text)
    ensures best == Suggestion(value, allowed, lower, trim)
    ensures lower(trim([])) == [] ==> SuggestsNear(value, allowed, lower, trim, best)
  {
    best := Search(value, allowed, lower, trim);
    if lower(trim([])) == [] {
      SuggestionIsNear(value, allowed, lower, trim);
    }
  }

  /** The loop itself. */
  method Search(value: Text, allowed: seq<Text>, lower: Text -> Text, trim: Text -> Text) returns (best: Text)
    ensures best == Suggestion(value, allowed, lower, trim)
  {
    var wanted := lower(trim(value));
    if wanted == [] || allowed == [] {
      return [];
    }
    ghost var q := Query(wanted, lower, trim);
    best := [];
    var bestDist := MaxSuggestionDistance(wanted);
    for i := 0 to |allowed|
      invariant Pick(best, bestDist) == q.Closest(allowed[..i])
    {
      var candidate := allowed[i];
      assert allowed[..i + 1][..i] == allowed[..i];
      var normalized := lower(trim(candidate));
      if normalized == [] {
        continue;
      }
      var dist := LevenshteinDistance(wanted, normalized);
      if dist <= bestDist && (best == [] || dist < bestDist || Less(normalized, lower(best))) {
        best := candidate;
        bestDist := dist;
      }
    }
    assert allowed[..|allowed|] == allowed;
  }
}
