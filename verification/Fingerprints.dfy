/** The two hashes by which the watched export recognises unchanged content. */
module Fingerprints {
  import opened Sequences
  import opened Sorting
  import opened Texts

  // ----- the fingerprint of the exported issues

  const UNIT_SEPARATOR: byte := 31
  const ZERO: byte := 0

  datatype IssueFingerprint = IssueFingerprint(id: Text, contentHash: Text, dependencyHash: Text)

  function KeyOf(fp: IssueFingerprint): Text {
    fp.id + [UNIT_SEPARATOR] + fp.contentHash + [UNIT_SEPARATOR] + fp.dependencyHash
  }

  /** What is fed to the hash: the sorted keys, each followed by a zero byte. */
  function HashInput(keys: seq<Text>): Text {
    if keys == [] then [] else keys[0] + [ZERO] + HashInput(keys[1..])
  }

  /** `digest` stands for the hash function. */
  function IssuesFingerprint(issues: seq<IssueFingerprint>, digest: Text -> Text): Text {
    digest(HashInput(Sort(Less, Map(KeyOf, issues))))
  }

  lemma {:induction false} InsertCommutes(x: Text, y: Text, s: seq<Text>)
    ensures Insert(Less, x, Insert(Less, y, s)) == Insert(Less, y, Insert(Less, x, s))
    decreases |s|
  {
    LessTotal(x, y);
    LessIrreflexive(x);
    if Less(x, y) && Less(y, x) {
      LessTransitive(x, y, x);
    }
    if s != [] {
      InsertCommutes(x, y, s[1..]);
      LessTotal(s[0], x);
      LessTotal(s[0], y);
      if Less(s[0], x) && Less(x, y) { LessTransitive(s[0], x, y); }
      if Less(s[0], y) && Less(y, x) { LessTransitive(s[0], y, x); }
    }
  }

  lemma {:induction false} SortPullsOut(s: seq<Text>, i: nat)
    requires i < |s|
    ensures Sort(Less, s) == Insert(Less, s[i], Sort(Less, s[..i] + s[i + 1..]))
    decreases |s|
  {
    if i == 0 {
      assert s[..0] + s[1..] == s[1..];
    } else {
      SortPullsOut(s[1..], i - 1);
      var rest := s[..i] + s[i + 1..];
      assert rest[1..] == s[1..][..i - 1] + s[1..][i..];
      InsertCommutes(s[0], s[i], Sort(Less, rest[1..]));
    }
  }

  lemma {:induction false} SortUnordered(s: seq<Text>, t: seq<Text>)
    requires multiset(s) == multiset(t)
    ensures Sort(Less, s) == Sort(Less, t)
    decreases |s|
  {
    assert |s| == |multiset(s)| == |multiset(t)| == |t|;
    if s != [] {
      var i := TakeOut(s, t);
      SortUnordered(s[1..], t[..i] + t[i + 1..]);
      SortPullsOut(t, i);
    }
  }

  /** Rewriting a file with the same issues in another order does not change the fingerprint. */
  lemma FingerprintUnordered(issues: seq<IssueFingerprint>, others: seq<IssueFingerprint>, digest: Text -> Text)
    requires multiset(issues) == multiset(others)
    ensures IssuesFingerprint(issues, digest) == IssuesFingerprint(others, digest)
  {
    MapPermutes(KeyOf, issues, others);
    SortUnordered(Map(KeyOf, issues), Map(KeyOf, others));
  }

  // the converse: what the fingerprint tells apart

  /** Hashes hold no separator, and nothing holds a zero byte. */
  predicate Readable(fp: IssueFingerprint) {
    && UNIT_SEPARATOR !in fp.contentHash && UNIT_SEPARATOR !in fp.dependencyHash
    && ZERO !in KeyOf(fp)
  }

  lemma NotShorter(a: Text, b: Text, z: byte, x: Text, y: Text)
    requires z !in b && a + [z] + x == b + [z] + y
    ensures |a| >= |b|
  {
    assert (a + [z] + x)[|a|] == z;
    assert forall i :: 0 <= i < |b| ==> (b + [z] + y)[i] == b[i];
  }

  /** The first z splits a text in one way only. */
  lemma SplitAtFirst(a: Text, b: Text, z: byte, x: Text, y: Text)
    requires z !in a && z !in b && a + [z] + x == b + [z] + y
    ensures a == b && x == y
  {
    NotShorter(a, b, z, x, y);
    NotShorter(b, a, z, y, x);
    var whole := a + [z] + x;
    assert a == whole[..|a|] && b == whole[..|a|];
    assert x == whole[|a| + 1..] && y == whole[|a| + 1..];
  }

  lemma NotShorterAtEnd(x: Text, y: Text, z: byte, a: Text, b: Text)
    requires z !in b && x + [z] + a == y + [z] + b
    ensures |a| >= |b|
  {
    assert |x + [z] + a| == |x| + 1 + |a| && |y + [z] + b| == |y| + 1 + |b|;
    assert (x + [z] + a)[|x|] == z;
    assert forall i :: |y| < i < |y| + 1 + |b| ==> (y + [z] + b)[i] == b[i - |y| - 1];
  }

  /** So does the last z. */
  lemma SplitAtLast(x: Text, y: Text, z: byte, a: Text, b: Text)
    requires z !in a && z !in b && x + [z] + a == y + [z] + b
    ensures x == y && a == b
  {
    NotShorterAtEnd(x, y, z, a, b);
    NotShorterAtEnd(y, x, z, b, a);
    var whole := x + [z] + a;
    assert |x| == |y|;
    assert x == whole[..|x|] && y == whole[..|x|];
    assert a == whole[|x| + 1..] && b == whole[|x| + 1..];
  }

  lemma KeyInjective(fp: IssueFingerprint, other: IssueFingerprint)
    requires Readable(fp) && Readable(other) && KeyOf(fp) == KeyOf(other)
    ensures fp == other
  {
    var x, y := fp.id + [UNIT_SEPARATOR] + fp.contentHash, other.id + [UNIT_SEPARATOR] + other.contentHash;
    SplitAtLast(x, y, UNIT_SEPARATOR, fp.dependencyHash, other.dependencyHash);
    SplitAtLast(fp.id, other.id, UNIT_SEPARATOR, fp.contentHash, other.contentHash);
  }

  lemma {:induction false} HashInputInjective(keys: seq<Text>, others: seq<Text>)
    requires forall k: Text :: k in keys ==> ZERO !in k
    requires forall k: Text :: k in others ==> ZERO !in k
    requires HashInput(keys) == HashInput(others)
    ensures keys == others
  {
    if keys != [] && others != [] {
      SplitAtFirst(keys[0], others[0], ZERO, HashInput(keys[1..]), HashInput(others[1..]));
      HashInputInjective(keys[1..], others[1..]);
      assert keys == [keys[0]] + keys[1..] && others == [others[0]] + others[1..];
    }
  }

  /** The hash function tells these two inputs apart. */
  predicate NoCollision(digest: Text -> Text, x: Text, y: Text) {
    digest(x) == digest(y) ==> x == y
  }

  function FingerprintInput(issues: seq<IssueFingerprint>): Text {
    HashInput(Sort(Less, Map(KeyOf, issues)))
  }

  /** The fingerprint changes whenever the issues do, unless the hash function collides on the two inputs. */
  lemma FingerprintTellsChange(issues: seq<IssueFingerprint>, others: seq<IssueFingerprint>, digest: Text -> Text)
    requires NoCollision(digest, FingerprintInput(issues), FingerprintInput(others))
    requires forall fp :: fp in issues || fp in others ==> Readable(fp)
    ensures IssuesFingerprint(issues, digest) == IssuesFingerprint(others, digest)
            <==> multiset(issues) == multiset(others)
  {
    if multiset(issues) == multiset(others) {
      FingerprintUnordered(issues, others, digest);
    }
    if IssuesFingerprint(issues, digest) == IssuesFingerprint(others, digest) {
      KeysHoldNoZero(issues);
      KeysHoldNoZero(others);
      HashInputInjective(Sort(Less, Map(KeyOf, issues)), Sort(Less, Map(KeyOf, others)));
      KeysTellIssues(issues, others);
    }
  }

  lemma KeysHoldNoZero(issues: seq<IssueFingerprint>)
    requires forall fp :: fp in issues ==> Readable(fp)
    ensures forall k: Text :: k in Sort(Less, Map(KeyOf, issues)) ==> ZERO !in k
  {
    SortMembers(Less, Map(KeyOf, issues));
    forall k: Text | k in Map(KeyOf, issues) ensures ZERO !in k {
      var i :| 0 <= i < |issues| && Map(KeyOf, issues)[i] == k;
      assert issues[i] in issues;
    }
  }

  lemma KeysTellIssues(issues: seq<IssueFingerprint>, others: seq<IssueFingerprint>)
    requires forall fp :: fp in issues || fp in others ==> Readable(fp)
    requires Sort(Less, Map(KeyOf, issues)) == Sort(Less, Map(KeyOf, others))
    ensures multiset(issues) == multiset(others)
  {
    SortPermutes(Less, Map(KeyOf, issues));
    SortPermutes(Less, Map(KeyOf, others));
    forall x, y | x in issues && y in others && KeyOf(x) == KeyOf(y) ensures x == y {
      KeyInjective(x, y);
    }
    MapInjective(KeyOf, issues, others);
  }

  /** One issue whose id holds the key of a, a zero byte and the id of b. */
  function Merged(a: IssueFingerprint, b: IssueFingerprint): IssueFingerprint {
    IssueFingerprint(KeyOf(a) + [ZERO] + b.id, b.contentHash, b.dependencyHash)
  }

  /** A zero byte in an id, which no validation excludes, can hide a change from the fingerprint: the merged issue,
      whose hashes are those of b, has the fingerprint of the two issues it replaces. */
  lemma ZeroByteConfusesFingerprint(a: IssueFingerprint, b: IssueFingerprint, digest: Text -> Text)
    requires Less(KeyOf(a), KeyOf(b))
    ensures IssuesFingerprint([a, b], digest) == IssuesFingerprint([Merged(a, b)], digest)
    ensures multiset([a, b]) != multiset([Merged(a, b)])
  {
    var ka, kb, k := KeyOf(a), KeyOf(b), KeyOf(Merged(a, b));
    assert k == ka + [ZERO] + kb;
    assert Map(KeyOf, [a, b]) == [ka, kb] && Map(KeyOf, [Merged(a, b)]) == [k];
    SortOfTwo(ka, kb);
    assert Sort(Less, [k]) == Insert(Less, k, []);
    HashInputOfTwo(ka, kb);
    assert |multiset([a, b])| == 2 && |multiset([Merged(a, b)])| == 1;
  }

  lemma HashInputOfTwo(a: Text, b: Text)
    ensures HashInput([a, b]) == HashInput([a + [ZERO] + b])
  {
    assert [a, b][1..] == [b] && [b][1..] == [];
    assert HashInput([b]) == b + [ZERO];
    assert a + [ZERO] + (b + [ZERO]) == (a + [ZERO] + b) + [ZERO];
  }

  lemma SortOfTwo(a: Text, b: Text)
    requires Less(a, b)
    ensures Sort(Less, [a, b]) == [a, b]
  {
    assert [a, b][1..] == [b] && [b][1..] == [];
    assert Sort(Less, [b]) == Insert(Less, b, []) == [b];
    assert Sort(Less, [a, b]) == Insert(Less, a, [b]);
    LessAsymmetric(a, b);
  }

  method ComputeIssuesFingerprint(issues: seq<IssueFingerprint>, digest: Text -> Text) returns (fingerprint: Text)
    ensures fingerprint == IssuesFingerprint(issues, digest)
  {
    var keys := [];
    for i := 0 to |issues|
      invariant |keys| == i && forall j :: 0 <= j < i ==> keys[j] == KeyOf(issues[j])
    {
      keys := keys + [KeyOf(issues[i])];
    }
    assert keys == Map(KeyOf, issues);
    keys := Sort(Less, keys);
    var input := [];
    for i := 0 to |keys|
      invariant input + HashInput(keys[i..]) == HashInput(keys)
    {
      assert keys[i..][0] == keys[i] && keys[i..][1..] == keys[i + 1..];
      assert input + (keys[i] + [ZERO] + HashInput(keys[i + 1..]))
          == input + keys[i] + [ZERO] + HashInput(keys[i + 1..]);
      input := input + keys[i] + [ZERO];
    }
    assert keys[|keys|..] == [] && input + [] == input;
    return digest(input);
  }

  // ----- the data hash, by which the source authority recognises what was loaded

  /** The variable-length form of a number: seven bits a byte, lowest first, all but the last marked. */
  function Uvarint(n: nat): Text {
    if n < 128 then [n as byte] else [(n % 128 + 128) as byte] + Uvarint(n / 128)
  }

  /** A text after its length. */
  function Prefixed(t: Text): Text {
    Uvarint(|t|) + t
  }

  function Record(fp: IssueFingerprint): Text {
    Prefixed(fp.id) + Prefixed(fp.contentHash) + Prefixed(fp.dependencyHash)
  }

  function Records(issues: seq<IssueFingerprint>): Text {
    if issues == [] then [] else Record(issues[0]) + Records(issues[1..])
  }

  predicate ById(a: IssueFingerprint, b: IssueFingerprint) {
    Less(a.id, b.id)
  }

  /** What is fed to the hash: the count, and the records in order of their ids. */
  function DataInput(issues: seq<IssueFingerprint>): Text {
    Uvarint(|issues|) + Records(Sort(ById, issues))
  }

  const EMPTY_HASH := Ascii("empty")

  function DataHash(issues: seq<IssueFingerprint>, digest: Text -> Text): Text {
    if issues == [] then EMPTY_HASH else digest(DataInput(issues))
  }

  /** A number is read back whatever follows it. */
  lemma {:induction false} UvarintSplits(m: nat, n: nat, x: Text, y: Text)
    requires Uvarint(m) + x == Uvarint(n) + y
    ensures m == n && x == y
  {
    var s, t := Uvarint(m) + x, Uvarint(n) + y;
    assert s[0] == Uvarint(m)[0] && t[0] == Uvarint(n)[0];
    if m >= 128 && n >= 128 {
      assert s[1..] == Uvarint(m / 128) + x && t[1..] == Uvarint(n / 128) + y;
      UvarintSplits(m / 128, n / 128, x, y);
    } else if m < 128 && n < 128 {
      assert s[1..] == x && t[1..] == y;
    }
  }

  lemma PrefixedSplits(a: Text, b: Text, x: Text, y: Text)
    requires Prefixed(a) + x == Prefixed(b) + y
    ensures a == b && x == y
  {
    assert Prefixed(a) + x == Uvarint(|a|) + (a + x) && Prefixed(b) + y == Uvarint(|b|) + (b + y);
    UvarintSplits(|a|, |b|, a + x, b + y);
    assert a == (a + x)[..|a|] && b == (b + y)[..|b|];
    assert x == (a + x)[|a|..] && y == (b + y)[|b|..];
  }

  lemma RecordSplits(fp: IssueFingerprint, other: IssueFingerprint, x: Text, y: Text)
    requires Record(fp) + x == Record(other) + y
    ensures fp == other && x == y
  {
    var p, q := Prefixed(fp.dependencyHash) + x, Prefixed(other.dependencyHash) + y;
    assert Record(fp) + x == Prefixed(fp.id) + (Prefixed(fp.contentHash) + p);
    assert Record(other) + y == Prefixed(other.id) + (Prefixed(other.contentHash) + q);
    PrefixedSplits(fp.id, other.id, Prefixed(fp.contentHash) + p, Prefixed(other.contentHash) + q);
    PrefixedSplits(fp.contentHash, other.contentHash, p, q);
    PrefixedSplits(fp.dependencyHash, other.dependencyHash, x, y);
  }

  lemma {:induction false} RecordsInjective(issues: seq<IssueFingerprint>, others: seq<IssueFingerprint>)
    requires |issues| == |others| && Records(issues) == Records(others)
    ensures issues == others
  {
    if issues != [] {
      RecordSplits(issues[0], others[0], Records(issues[1..]), Records(others[1..]));
      RecordsInjective(issues[1..], others[1..]);
      assert issues == [issues[0]] + issues[1..] && others == [others[0]] + others[1..];
    }
  }

  /** The hashed input determines the sorted issues, whatever bytes their ids hold. */
  lemma DataInputInjective(issues: seq<IssueFingerprint>, others: seq<IssueFingerprint>)
    ensures DataInput(issues) == DataInput(others) <==> Sort(ById, issues) == Sort(ById, others)
  {
    SortMembers(ById, issues);
    SortMembers(ById, others);
    if DataInput(issues) == DataInput(others) {
      UvarintSplits(|issues|, |others|, Records(Sort(ById, issues)), Records(Sort(ById, others)));
      RecordsInjective(Sort(ById, issues), Sort(ById, others));
    }
  }

  function HasId(id: Text): IssueFingerprint -> bool {
    (fp: IssueFingerprint) => fp.id == id
  }

  /** The issues recorded under one id, in the order they were met. */
  function RecordedAs(issues: seq<IssueFingerprint>, id: Text): seq<IssueFingerprint> {
    Filter(HasId(id), issues)
  }

  /** The same issues; their order may differ, except among issues with the same id. */
  ghost predicate SameIssues(issues: seq<IssueFingerprint>, others: seq<IssueFingerprint>) {
    forall id :: RecordedAs(issues, id) == RecordedAs(others, id)
  }

  lemma SortKeepsRecords(issues: seq<IssueFingerprint>, id: Text)
    ensures RecordedAs(Sort(ById, issues), id) == RecordedAs(issues, id)
  {
    LessIrreflexive(id);
    SortIsStable(ById, HasId(id), issues);
  }

  lemma ByIdIsOrder()
    ensures WeakOrder(ById)
  {
    forall a, b | ById(a, b) ensures !ById(b, a) {
      LessAsymmetric(a.id, b.id);
    }
    forall a, b, c | !ById(a, b) && !ById(b, c) ensures !ById(a, c) {
      LessNegative(a.id, b.id, c.id);
    }
  }

  /** Whatever is recorded in one list is recorded in the other. */
  lemma SameIssuesFound(s: seq<IssueFingerprint>, t: seq<IssueFingerprint>, x: IssueFingerprint)
    requires SameIssues(s, t) && x in s
    ensures x in t
  {
    FilterMember(HasId(x.id), s, x);
    FilterMember(HasId(x.id), t, x);
    assert RecordedAs(s, x.id) == RecordedAs(t, x.id);
  }

  lemma NothingBefore(s: seq<IssueFingerprint>, x: IssueFingerprint)
    requires InOrder(ById, s) && x in s
    ensures !ById(x, s[0])
  {
    LessIrreflexive(x.id);
  }

  lemma FirstIds(s: seq<IssueFingerprint>, t: seq<IssueFingerprint>)
    requires SameIssues(s, t) && s != [] && t != [] && InOrder(ById, s) && InOrder(ById, t)
    ensures s[0] == t[0]
  {
    SameIssuesFound(s, t, s[0]);
    SameIssuesFound(t, s, t[0]);
    NothingBefore(s, t[0]);
    NothingBefore(t, s[0]);
    LessTotal(s[0].id, t[0].id);
    assert RecordedAs(s, s[0].id)[0] == s[0] && RecordedAs(t, t[0].id)[0] == t[0];
  }

  /** Lists in order of ids with the same issues are equal. */
  lemma {:induction false} OrderedSameIssues(s: seq<IssueFingerprint>, t: seq<IssueFingerprint>)
    requires SameIssues(s, t) && InOrder(ById, s) && InOrder(ById, t)
    ensures s == t
    decreases |s|
  {
    if s == [] {
      if t != [] { SameIssuesFound(t, s, t[0]); }
    } else {
      SameIssuesFound(s, t, s[0]);
      FirstIds(s, t);
      forall id ensures RecordedAs(s[1..], id) == RecordedAs(t[1..], id) {
        var first := if s[0].id == id then [s[0]] else [];
        assert RecordedAs(s, id) == first + RecordedAs(s[1..], id);
        assert RecordedAs(t, id) == first + RecordedAs(t[1..], id);
        assert RecordedAs(s, id) == RecordedAs(t, id);
        assert RecordedAs(s[1..], id) == RecordedAs(s, id)[|first|..];
      }
      OrderedSameIssues(s[1..], t[1..]);
      assert s == [s[0]] + s[1..] && t == [t[0]] + t[1..];
    }
  }

  lemma SortedAlikeIffSame(issues: seq<IssueFingerprint>, others: seq<IssueFingerprint>)
    ensures Sort(ById, issues) == Sort(ById, others) <==> SameIssues(issues, others)
  {
    forall id
      ensures RecordedAs(Sort(ById, issues), id) == RecordedAs(issues, id)
      ensures RecordedAs(Sort(ById, others), id) == RecordedAs(others, id)
    {
      SortKeepsRecords(issues, id);
      SortKeepsRecords(others, id);
    }
    if SameIssues(issues, others) {
      ByIdIsOrder();
      SortKeepsOrder(ById, issues);
      SortKeepsOrder(ById, others);
      OrderedSameIssues(Sort(ById, issues), Sort(ById, others));
    }
  }

  /** No collision on the two inputs, and neither is taken for the empty list. */
  predicate DataTold(digest: Text -> Text, issues: seq<IssueFingerprint>, others: seq<IssueFingerprint>) {
    && NoCollision(digest, DataInput(issues), DataInput(others))
    && digest(DataInput(issues)) != EMPTY_HASH && digest(DataInput(others)) != EMPTY_HASH
  }

  /** The data hash is that of the same issues, and of no others. */
  lemma DataHashTellsIssues(issues: seq<IssueFingerprint>, others: seq<IssueFingerprint>, digest: Text -> Text)
    requires DataTold(digest, issues, others)
    ensures DataHash(issues, digest) == DataHash(others, digest) <==> SameIssues(issues, others)
  {
    DataInputInjective(issues, others);
    SortedAlikeIffSame(issues, others);
    SortMembers(ById, issues);
    SortMembers(ById, others);
  }

  /** So it tells the merged issue from the two it replaces. */
  lemma DataHashSeesZeroByte(a: IssueFingerprint, b: IssueFingerprint, digest: Text -> Text)
    requires DataTold(digest, [a, b], [Merged(a, b)])
    ensures DataHash([a, b], digest) != DataHash([Merged(a, b)], digest)
  {
    DataHashTellsIssues([a, b], [Merged(a, b)], digest);
    SortedAlikeIffSame([a, b], [Merged(a, b)]);
    SortMembers(ById, [a, b]);
    SortMembers(ById, [Merged(a, b)]);
  }

  lemma {:induction false} RecordsPush(issues: seq<IssueFingerprint>, fp: IssueFingerprint)
    ensures Records(issues + [fp]) == Records(issues) + Record(fp)
  {
    if issues == [] {
      assert [fp][1..] == [];
    } else {
      assert (issues + [fp])[1..] == issues[1..] + [fp];
      RecordsPush(issues[1..], fp);
    }
  }

  method WriteRecords(input: Text, sorted: seq<IssueFingerprint>) returns (longer: Text)
    ensures longer == input + Records(sorted)
  {
    longer := input;
    for i := 0 to |sorted|
      invariant longer == input + Records(sorted[..i])
    {
      assert sorted[..i + 1] == sorted[..i] + [sorted[i]];
      RecordsPush(sorted[..i], sorted[i]);
      longer := longer + Prefixed(sorted[i].id);
      longer := longer + Prefixed(sorted[i].contentHash);
      longer := longer + Prefixed(sorted[i].dependencyHash);
    }
    assert sorted[..|sorted|] == sorted;
  }

  method ComputeDataHash(issues: seq<IssueFingerprint>, digest: Text -> Text) returns (hash: Text)
    ensures hash == DataHash(issues, digest)
  {
    if |issues| == 0 {
      return EMPTY_HASH;
    }
    SortMembers(ById, issues);
    var sorted := Sort(ById, issues);
    var input := Uvarint(|sorted|);
    input := WriteRecords(input, sorted);
    return digest(input);
  }

  // ----- the hash of the source authority

  /** One source as reported: the issues loaded from it, tombstones included, and all else the report says. */
  datatype SourceLoad = SourceLoad(rest: Text, issues: seq<IssueFingerprint>)

  function DataHashes(sources: seq<SourceLoad>, digest: Text -> Text): seq<Text> {
    Map((s: SourceLoad) => DataHash(s.issues, digest), sources)
  }

  function Rests(sources: seq<SourceLoad>): seq<Text> {
    Map((s: SourceLoad) => s.rest, sources)
  }

  /** From the data hashes of the sources and all else their reports say to the JSON text of the authority. */
  type Marshal = (seq<Text>, seq<Text>) -> Text

  function AuthorityText(sources: seq<SourceLoad>, marshal: Marshal, digest: Text -> Text): Text {
    marshal(Rests(sources), DataHashes(sources, digest))
  }

  function AuthorityHash(sources: seq<SourceLoad>, marshal: Marshal, digest: Text -> Text): Text {
    digest(AuthorityText(sources, marshal, digest))
  }

  /** Equal authority hashes mean that the same issues were loaded from every source, provided that the hash function
      does not collide on the inputs at hand and the JSON text shows the data hashes. */
  lemma AuthorityTellsLoads(
    sources: seq<SourceLoad>, others: seq<SourceLoad>, marshal: Marshal, digest: Text -> Text)
    requires NoCollision(digest, AuthorityText(sources, marshal, digest), AuthorityText(others, marshal, digest))
    requires AuthorityText(sources, marshal, digest) == AuthorityText(others, marshal, digest) ==>
               DataHashes(sources, digest) == DataHashes(others, digest)
    requires forall s, t :: s in sources && t in others ==> DataTold(digest, s.issues, t.issues)
    requires AuthorityHash(sources, marshal, digest) == AuthorityHash(others, marshal, digest)
    ensures |sources| == |others|
    ensures forall i :: 0 <= i < |sources| ==> SameIssues(sources[i].issues, others[i].issues)
  {
    assert |sources| == |DataHashes(sources, digest)| == |DataHashes(others, digest)| == |others|;
    forall i | 0 <= i < |sources| ensures SameIssues(sources[i].issues, others[i].issues) {
      assert DataHashes(sources, digest)[i] == DataHashes(others, digest)[i];
      assert sources[i] in sources && others[i] in others;
      DataHashTellsIssues(sources[i].issues, others[i].issues, digest);
    }
  }

  /** Rewriting a source with the same issues in another order changes no authority hash. */
  lemma SameLoadsSameAuthority(
    sources: seq<SourceLoad>, others: seq<SourceLoad>, marshal: Marshal, digest: Text -> Text)
    requires |sources| == |others|
    requires forall i :: 0 <= i < |sources| ==>
               sources[i].rest == others[i].rest && SameIssues(sources[i].issues, others[i].issues)
    ensures AuthorityHash(sources, marshal, digest) == AuthorityHash(others, marshal, digest)
  {
    forall i | 0 <= i < |sources|
      ensures DataHash(sources[i].issues, digest) == DataHash(others[i].issues, digest)
    {
      DataInputInjective(sources[i].issues, others[i].issues);
      SortedAlikeIffSame(sources[i].issues, others[i].issues);
      SortMembers(ById, sources[i].issues);
      SortMembers(ById, others[i].issues);
    }
    assert Rests(sources) == Rests(others);
    assert DataHashes(sources, digest) == DataHashes(others, digest);
  }
}
