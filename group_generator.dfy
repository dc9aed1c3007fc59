/**
 * The group generator: a name list, the two partitioning modes of `generateGroups`, and the
 * clamped numeric inputs that feed them.
 */
module GroupGenerator {
  import opened Wrappers
  import opened Seqs
  import opened Text

  datatype Group = Group(id: int, name: string, members: seq<string>)

  datatype Mode = BySize | ByCount

  function Min(a: int, b: int): int {
    if a < b then a else b
  }

  /** The label `第 ${id} 組`. */
  function GroupName(id: nat): string {
    "第 " + NatToString(id) + " 組"
  }

  /** The label is the prefix, the decimal id and the suffix, so different ids get different labels. */
  lemma GroupNameReadsBack(id: nat, other: nat)
    ensures var r := GroupName(id);
      && |r| >= 5 && r[..2] == "第 " && r[|r| - 2..] == " 組"
      && AllDigits(r[2..|r| - 2]) && DigitsValue(r[2..|r| - 2]) == id
    ensures other != id ==> GroupName(other) != GroupName(id)
  {
    var r, r' := GroupName(id), GroupName(other);
    NatToStringRoundTrip(id);
    NatToStringRoundTrip(other);
    assert r[2..|r| - 2] == NatToString(id);
    assert r'[2..|r'| - 2] == NatToString(other);
  }

  /** The member lists of the groups, in order. */
  function Members(groups: seq<Group>): (ms: seq<seq<string>>)
    ensures |ms| == |groups|
    ensures forall j :: 0 <= j < |groups| ==> ms[j] == groups[j].members
  {
    seq(|groups|, j requires 0 <= j < |groups| => groups[j].members)
  }

  lemma MembersAppend(groups: seq<Group>, g: Group)
    ensures Members(groups + [g]) == Members(groups) + [g.members]
  {
    assert Members(groups + [g])[|groups|] == g.members;
  }

  /** Groups are numbered 1, 2, ... in order and labelled with their number. */
  predicate Numbered(groups: seq<Group>) {
    forall j :: 0 <= j < |groups| ==> groups[j].id == j + 1 && groups[j].name == GroupName(j + 1)
  }

  /** Appending the next chunk of `s` to groups that spell out a prefix of `s` spells out a longer prefix. */
  lemma AppendChunk(s: seq<string>, groups: seq<Group>, start: nat, end: nat)
    requires start <= end <= |s|
    requires Flatten(Members(groups)) == s[..start]
    requires Numbered(groups)
    ensures var g := Group(|groups| + 1, GroupName(|groups| + 1), s[start..end]);
      && Flatten(Members(groups + [g])) == s[..end]
      && Numbered(groups + [g])
  {
    var g := Group(|groups| + 1, GroupName(|groups| + 1), s[start..end]);
    MembersAppend(groups, g);
    FlattenAppend(Members(groups), g.members);
    assert s[..start] + s[start..end] == s[..end];
  }

  /**
   * The by-size outcome: `ceil(n / size)` groups that, read in order, are exactly `s`, each of
   * `size` members except the last, which has between 1 and `size`.
   */
  predicate BySizeGroups(s: seq<string>, size: nat, groups: seq<Group>) {
    && size >= 1
    && |groups| == (|s| + size - 1) / size
    && Numbered(groups)
    && (forall j :: 0 <= j < |groups| - 1 ==> |groups[j].members| == size)
    && (|groups| > 0 ==> 1 <= |groups[|groups| - 1].members| <= size)
    && Flatten(Members(groups)) == s
  }

  /** The size of group `j` (from 0) when `n` names go into `k` groups: the first `n % k` get one extra. */
  function ShareSize(n: nat, k: nat, j: nat): (r: nat)
    requires k >= 1
    ensures n / k <= r <= n / k + 1
    ensures r == n / k + 1 <==> j < n % k
  {
    n / k + (if j < n % k then 1 else 0)
  }

  /**
   * The by-count outcome: `min(k, n)` non-empty groups that, read in order, are exactly `s`;
   * group `j` has `n / k` members, plus one for the first `n % k` groups.
   */
  predicate ByCountGroups(s: seq<string>, k: nat, groups: seq<Group>) {
    && k >= 1
    && |groups| == Min(k, |s|)
    && Shares(|s|, k, groups)
    && Flatten(Members(groups)) == s
  }

  /** The groups so far are numbered from 1, non-empty, and group `j` holds share `j` of `n` names in `k` groups. */
  predicate Shares(n: nat, k: nat, groups: seq<Group>) {
    && k >= 1
    && Numbered(groups)
    && (forall j :: 0 <= j < |groups| ==> |groups[j].members| == ShareSize(n, k, j))
    && (forall j :: 0 <= j < |groups| ==> |groups[j].members| >= 1)
  }

  /** Appending the next non-empty share keeps the groups a run of shares. */
  lemma AppendShare(s: seq<string>, k: nat, groups: seq<Group>, start: nat, g: Group)
    requires Shares(|s|, k, groups)
    requires 0 < ShareSize(|s|, k, |groups|) && start + ShareSize(|s|, k, |groups|) <= |s|
    requires Flatten(Members(groups)) == s[..start]
    requires g == Group(|groups| + 1, GroupName(|groups| + 1), s[start..start + ShareSize(|s|, k, |groups|)])
    ensures Shares(|s|, k, groups + [g])
    ensures Flatten(Members(groups + [g])) == s[..start + ShareSize(|s|, k, |groups|)]
  {
    AppendChunk(s, groups, start, start + ShareSize(|s|, k, |groups|));
  }

  // ---------------------------------------------------------------------------------------
  // Arithmetic behind the two loops
  // ---------------------------------------------------------------------------------------

  lemma MulMono(a: nat, b: nat, c: nat)
    requires a <= b
    ensures a * c <= b * c
  {
    assert b * c == a * c + (b - a) * c;
  }

  /** `Math.ceil(n / size)` groups of `size` cover all `n` names, and one group fewer does not. */
  lemma CeilDivBounds(n: nat, size: nat)
    requires size >= 1
    ensures var k := (n + size - 1) / size;
      && n <= k * size
      && (n > 0 ==> k >= 1 && (k - 1) * size < n)
      && (n == 0 ==> k == 0)
  {
    var k := (n + size - 1) / size;
    var r := (n + size - 1) % size;
    assert n + size - 1 == k * size + r;
    if k >= 1 {
      assert (k - 1) * size == k * size - size;
    }
    if n == 0 && k >= 1 {
      MulMono(1, k, size);
      assert false;
    }
  }

  /** Chunk `j` of the by-size loop starts inside the list; all but the last end inside it too. */
  lemma ChunkBounds(n: nat, size: nat, j: nat, start: nat)
    requires size >= 1 && j < (n + size - 1) / size && start == j * size
    ensures start < n
    ensures start + size == (j + 1) * size
    ensures j + 1 < (n + size - 1) / size ==> start + size < n
    ensures j + 1 == (n + size - 1) / size ==> n <= start + size
  {
    var k := (n + size - 1) / size;
    CeilDivBounds(n, size);
    MulMono(j, k - 1, size);
    if j + 1 < k {
      MulMono(j + 1, k - 1, size);
    }
  }

  /** Where share `i` of the by-count loop starts: after the shares before it. */
  function ShareStart(n: nat, k: nat, i: nat): nat
    requires k >= 1
  {
    if i == 0 then 0 else ShareStart(n, k, i - 1) + ShareSize(n, k, i - 1)
  }

  /** The `i` shares before share `i` hold `i * (n / k) + min(i, n % k)` names. */
  lemma {:induction false} ShareStartClosed(n: nat, k: nat, i: nat)
    requires k >= 1
    ensures ShareStart(n, k, i) == i * (n / k) + Min(i, n % k)
  {
    if i > 0 {
      ShareStartClosed(n, k, i - 1);
      assert i * (n / k) == (i - 1) * (n / k) + n / k;
    }
  }

  /** Share `i` of the by-count loop is non-empty exactly when `i < n`, and it ends inside the list. */
  lemma ShareStep(n: nat, k: nat, i: nat)
    requires k >= 1 && i < k
    ensures ShareSize(n, k, i) > 0 <==> i < n
    ensures ShareStart(n, k, i + 1) <= n
  {
    var q := n / k;
    ShareFacts(n, k);
    ShareStartClosed(n, k, i + 1);
    MulMono(i + 1, k, q);
    if q >= 1 {
      MulMono(1, q, k);
    }
  }

  /** An empty share comes only after all names are placed. */
  lemma EmptyShare(n: nat, k: nat, i: nat)
    requires k >= 1 && i < k && ShareSize(n, k, i) == 0
    ensures ShareStart(n, k, i) == n
  {
    ShareFacts(n, k);
    ShareStartClosed(n, k, i);
  }

  /** All `k` shares together hold the `n` names. */
  lemma ShareEnd(n: nat, k: nat)
    requires k >= 1
    ensures ShareStart(n, k, k) == n
  {
    ShareFacts(n, k);
    ShareStartClosed(n, k, k);
  }

  /** When there are fewer names than groups every share is 0 or 1; otherwise every share is at least 1. */
  lemma ShareFacts(n: nat, k: nat)
    requires k >= 1
    ensures n == k * (n / k) + n % k
    ensures n / k == 0 <==> n < k
    ensures n / k == 0 ==> n % k == n
  {
    var q, r := n / k, n % k;
    assert n == k * q + r && 0 <= r < k;
    if q >= 1 {
      MulMono(1, q, k);
    }
  }

  // ---------------------------------------------------------------------------------------
  // The two partitioning loops of `generateGroups`
  // ---------------------------------------------------------------------------------------

  /** By-size mode: `ceil(n / groupSize)` groups, group `i` holding `shuffled.slice(i * groupSize, (i + 1) * groupSize)`. */
  method BySizePartition(shuffled: seq<string>, groupSize: nat) returns (groups: seq<Group>)
    requires groupSize >= 1
    ensures BySizeGroups(shuffled, groupSize, groups)
  {
    var n := |shuffled|;
    var numGroups := (n + groupSize - 1) / groupSize;
    CeilDivBounds(n, groupSize);
    groups := [];
    var i, start := 0, 0;
    while i < numGroups
      invariant BySizeLoop(shuffled, groupSize, i, groups, start)
    {
      var end := Min(start + groupSize, n);
      ghost var before := groups;
      groups := groups + [Group(i + 1, GroupName(i + 1), shuffled[start..end])];
      BySizeNext(shuffled, groupSize, i, before, start, groups);
      i, start := i + 1, start + groupSize;
    }
  }

  /** What holds after chunk `i - 1` of the by-size loop: full chunks, a short last one, spelling out a prefix. */
  predicate BySizeLoop(s: seq<string>, size: nat, i: nat, groups: seq<Group>, start: nat) {
    && size >= 1
    && var numGroups := (|s| + size - 1) / size;
    && i <= numGroups
    && start == i * size
    && (i < numGroups ==> start < |s|)
    && |groups| == i
    && Numbered(groups)
    && (forall j :: 0 <= j < i ==> 1 <= |groups[j].members| <= size)
    && (forall j :: 0 <= j < i && j < numGroups - 1 ==> |groups[j].members| == size)
    && (i < numGroups ==> Flatten(Members(groups)) == s[..start])
    && (i == numGroups ==> Flatten(Members(groups)) == s)
  }

  /** One turn of the by-size loop: chunk `i` is `s[start..min(start + size, n)]`. */
  lemma BySizeNext(s: seq<string>, size: nat, i: nat, groups: seq<Group>, start: nat, groups': seq<Group>)
    requires BySizeLoop(s, size, i, groups, start) && i < (|s| + size - 1) / size
    requires groups' == groups + [Group(i + 1, GroupName(i + 1), s[start..Min(start + size, |s|)])]
    ensures BySizeLoop(s, size, i + 1, groups', start + size)
  {
    var n := |s|;
    ChunkBounds(n, size, i, start);
    var end := Min(start + size, n);
    AppendChunk(s, groups, start, end);
    assert groups' == groups + [Group(|groups| + 1, GroupName(|groups| + 1), s[start..end])];
    if i + 1 == (n + size - 1) / size {
      assert s[..end] == s;
    }
  }

  /**
   * By-count mode: `groupCount` shares of `n / groupCount` names, the first `n % groupCount`
   * of them one larger, taken in order from a running start index; empty shares are skipped.
   */
  method ByCountPartition(shuffled: seq<string>, groupCount: nat) returns (groups: seq<Group>)
    requires groupCount >= 1
    ensures ByCountGroups(shuffled, groupCount, groups)
  {
    var n := |shuffled|;
    var size := n / groupCount;
    var remainder := n % groupCount;
    var startIndex := 0;
    groups := [];
    var i := 0;
    while i < groupCount
      invariant 0 <= i <= groupCount
      invariant ByCountLoop(shuffled, groupCount, i, groups, startIndex)
    {
      var currentSize := size + (if i < remainder then 1 else 0);
      ghost var before, start := groups, startIndex;
      if currentSize > 0 {
        ShareFits(shuffled, groupCount, i, groups, startIndex);
        groups := groups + [Group(i + 1, GroupName(i + 1), shuffled[startIndex..startIndex + currentSize])];
        startIndex := startIndex + currentSize;
      }
      ByCountNext(shuffled, groupCount, i, before, start, groups, startIndex);
      i := i + 1;
    }
    ShareEnd(n, groupCount);
    assert shuffled[..startIndex] == shuffled;
  }

  /** What holds after share `i - 1` of the by-count loop: the non-empty shares so far, spelling out a prefix. */
  predicate ByCountLoop(s: seq<string>, k: nat, i: nat, groups: seq<Group>, start: nat) {
    && k >= 1
    && |groups| == Min(i, |s|)
    && start == ShareStart(|s|, k, i) <= |s|
    && Shares(|s|, k, groups)
    && Flatten(Members(groups)) == s[..start]
  }

  /** Share `i` ends inside the list. */
  lemma ShareFits(s: seq<string>, k: nat, i: nat, groups: seq<Group>, start: nat)
    requires i < k && ByCountLoop(s, k, i, groups, start)
    ensures start + ShareSize(|s|, k, i) <= |s|
    ensures ShareSize(|s|, k, i) == |s| / k + (if i < |s| % k then 1 else 0)
  {
    ShareStep(|s|, k, i);
  }

  /** One turn of the by-count loop: share `i` is appended when non-empty and skipped when empty. */
  lemma ByCountNext(s: seq<string>, k: nat, i: nat, groups: seq<Group>, start: nat, groups': seq<Group>, start': nat)
    requires i < k && ByCountLoop(s, k, i, groups, start)
    requires var c := |s| / k + (if i < |s| % k then 1 else 0);
      && (c > 0 ==> start + c <= |s| && groups' == groups + [Group(i + 1, GroupName(i + 1), s[start..start + c])] && start' == start + c)
      && (c <= 0 ==> groups' == groups && start' == start)
    ensures ByCountLoop(s, k, i + 1, groups', start')
  {
    var n := |s|;
    ShareStep(n, k, i);
    if ShareSize(n, k, i) == 0 {
      EmptyShare(n, k, i);
    } else {
      AppendShare(s, k, groups, start, groups'[|groups|]);
      assert groups' == groups + [groups'[|groups|]];
    }
  }

  /** Every name is placed exactly once, in both modes. */
  lemma {:induction false} PartitionKeepsNames(shuffled: seq<string>, names: seq<string>, groups: seq<Group>)
    requires multiset(shuffled) == multiset(names)
    requires Flatten(Members(groups)) == shuffled
    ensures multiset(Flatten(Members(groups))) == multiset(names)
    ensures SumLengths(Members(groups)) == |names|
  {
    FlattenLength(Members(groups));
    assert |shuffled| == |multiset(shuffled)| == |names|;
  }

  // ---------------------------------------------------------------------------------------
  // The numeric inputs
  // ---------------------------------------------------------------------------------------

  /** `Math.max(1, parseInt(v) || 1)`: NaN and 0 become 1, negatives are raised to 1, any other value is kept. */
  function ClampInput(parsed: Option<int>): (r: int)
    ensures r >= 1
    ensures parsed.Some? && parsed.value >= 1 ==> r == parsed.value
    ensures parsed.None? || parsed.value < 1 ==> r == 1
  {
    var v := match parsed case None => 1 case Some(p) => if p == 0 then 1 else p;
    if v < 1 then 1 else v
  }

  /** The field reads back any positive number it shows, and an empty or non-numeric field gives 1. */
  lemma ClampInputOfNumber(n: nat, rest: string)
    requires n >= 1
    requires rest == [] || !IsDigit(rest[0])
    ensures ClampInput(ParseInt(NatToString(n) + rest)) == n
    ensures ClampInput(ParseInt("-" + (NatToString(n) + rest))) == 1
    ensures ClampInput(ParseInt([])) == 1
  {
    ParseIntOfNat(n, rest);
    ParseIntOfNegatedNat(n, rest);
  }

  // ---------------------------------------------------------------------------------------
  // The component
  // ---------------------------------------------------------------------------------------

  const DefaultNames: seq<string> := [
    "雷蒙", "柚子", "Notion", "Lifehacker", "工具人", "生產力",
    "設計師", "工程師", "產品經理", "行銷", "業務", "客服"
  ]

  class GeneratorState {
    var names: seq<string>
    /** The text in the single-name input box. */
    var newName: string
    var groupSize: int
    var groupCount: int
    var mode: Mode
    var isGenerating: bool
    var resultGroups: seq<Group>
    /** Groups computed by `generateGroups` and waiting for their 1.5 s timeout, oldest first. */
    var pending: seq<seq<Group>>

    ghost predicate Valid()
      reads this
    {
      && groupSize >= 1
      && groupCount >= 1
      && (isGenerating ==> |pending| > 0)
    }

    /** A first visit: nothing in local storage. */
    constructor ()
      ensures Valid()
      ensures names == DefaultNames && newName == []
      ensures groupSize == 3 && groupCount == 4 && mode == BySize
      ensures !isGenerating && resultGroups == [] && pending == []
    {
      names := DefaultNames;
      newName := [];
      groupSize := 3;
      groupCount := 4;
      mode := BySize;
      isGenerating := false;
      resultGroups := [];
      pending := [];
    }

    /** Typing in the single-name box. */
    method SetNewName(text: string)
      modifies this`newName
      ensures newName == text
    {
      newName := text;
    }

    /** `addName`: a blank entry is ignored; otherwise its trimmed text is appended and the box cleared. */
    method AddName()
      requires Valid()
      modifies this`names, this`newName
      ensures Valid()
      ensures Trim(old(newName)) == [] ==> names == old(names) && newName == old(newName)
      ensures Trim(old(newName)) != [] ==> names == old(names) + [Trim(old(newName))] && newName == []
    {
      var name := Trim(newName);
      if name != [] {
        names := names + [name];
        newName := [];
      }
    }

    /** `removeName(index)`: the list without element `index`. */
    method RemoveName(index: nat)
      requires Valid()
      modifies this`names
      ensures Valid()
      ensures names == RemoveAt(old(names), index)
      ensures index < |old(names)| ==> |names| == |old(names)| - 1 && multiset(names) + multiset{old(names)[index]} == multiset(old(names))
    {
      names := RemoveAt(names, index);
    }

    /** `handleBulkInput`: replace the names with the parsed text unless it parses to nothing. */
    method HandleBulkInput(text: string)
      requires Valid()
      modifies this`names
      ensures Valid()
      ensures ParseBulk(text) == [] ==> names == old(names)
      ensures ParseBulk(text) != [] ==> names == ParseBulk(text)
      ensures forall x :: x in names ==> x in old(names) || IsCleanItem(x)
    {
      var newNames := ParseBulk(text);
      if |newNames| > 0 {
        names := newNames;
      }
    }

    /** The clear button. */
    method ClearNames()
      requires Valid()
      modifies this`names
      ensures Valid()
      ensures names == []
    {
      names := [];
    }

    /** The group-size field: clamped to at least 1. */
    method SetGroupSize(value: string)
      requires Valid()
      modifies this`groupSize
      ensures Valid()
      ensures groupSize == ClampInput(ParseInt(value))
    {
      groupSize := ClampInput(ParseInt(value));
    }

    /** The group-count field: clamped to at least 1. */
    method SetGroupCount(value: string)
      requires Valid()
      modifies this`groupCount
      ensures Valid()
      ensures groupCount == ClampInput(ParseInt(value))
    {
      groupCount := ClampInput(ParseInt(value));
    }

    method SetMode(m: Mode)
      requires Valid()
      modifies this`mode
      ensures Valid()
      ensures mode == m
    {
      mode := m;
    }

    /**
     * `generateGroups`: refused with fewer than two names; otherwise the generator enters its
     * animation with no groups shown and queues the partition of the shuffled names for the
     * timeout. The random-comparator sort's output is given as the permutation `shuffled`.
     */
    method GenerateGroups(shuffled: seq<string>) returns (rejected: bool)
      requires Valid()
      requires |names| >= 2 ==> multiset(shuffled) == multiset(names)
      modifies this`isGenerating, this`resultGroups, this`pending
      ensures Valid()
      ensures rejected <==> |names| < 2
      ensures rejected ==> isGenerating == old(isGenerating) && resultGroups == old(resultGroups) && pending == old(pending)
      ensures !rejected ==> isGenerating && resultGroups == [] && |pending| == |old(pending)| + 1
      ensures !rejected ==> pending[..|old(pending)|] == old(pending)
      ensures !rejected && mode == BySize ==> BySizeGroups(shuffled, groupSize, pending[|pending| - 1])
      ensures !rejected && mode == ByCount ==> ByCountGroups(shuffled, groupCount, pending[|pending| - 1])
      ensures !rejected ==> multiset(Flatten(Members(pending[|pending| - 1]))) == multiset(names)
    {
      if |names| < 2 {
        return true;
      }
      rejected := false;
      isGenerating := true;
      resultGroups := [];
      var groups;
      if mode == BySize {
        groups := BySizePartition(shuffled, groupSize);
      } else {
        groups := ByCountPartition(shuffled, groupCount);
      }
      PartitionKeepsNames(shuffled, names, groups);
      pending := pending + [groups];
    }

    /** The timeout of the oldest `generateGroups`: its groups are shown and the animation ends. */
    method FinishGenerating()
      requires Valid()
      requires |pending| > 0
      modifies this`isGenerating, this`resultGroups, this`pending
      ensures Valid()
      ensures !isGenerating && resultGroups == old(pending)[0] && pending == old(pending)[1..]
    {
      isGenerating := false;
      resultGroups := pending[0];
      pending := pending[1..];
    }
  }
}
