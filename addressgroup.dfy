/** Address-group listing for antctl (addressgroup/transform.go): the sorter that orders a
    decoded list in place, the projection of each group into a response, and table rendering. */
module AddressGroupTransform {
  import opened Common

  /** One decoded address group: name and creation time from its object metadata (a time is an
      integer here, and "before" is `<`), and its members as they come off the wire. The wire
      member type is a parameter; members are only ever handed to the external projection. */
  datatype AddressGroup<M> = AddressGroup(name: string, creationTimestamp: int, groupMembers: seq<M>)

  /** The option value that selects the timestamp comparator. */
  const SortByCreationTime: string := "CreationTimestamp"

  // ---------------------------------------------------------------------------------------
  // Comparators

  /** Go's `<` on strings: lexicographic order. Comparing characters by code point agrees with
      Go's byte-wise comparison of their UTF-8 encodings. */
  predicate LexLess(a: string, b: string) {
    if |a| == 0 then |b| > 0
    else if |b| == 0 then false
    else if a[0] != b[0] then a[0] < b[0]
    else LexLess(a[1..], b[1..])
  }

  lemma {:induction false} LexLessIrreflexive(a: string)
    ensures !LexLess(a, a)
  {
    if |a| > 0 {
      LexLessIrreflexive(a[1..]);
    }
  }

  lemma {:induction false} LexLessTransitive(a: string, b: string, c: string)
    requires LexLess(a, b) && LexLess(b, c)
    ensures LexLess(a, c)
  {
    if |a| > 0 && |b| > 0 && |c| > 0 && a[0] == b[0] && b[0] == c[0] {
      LexLessTransitive(a[1..], b[1..], c[1..]);
    }
  }

  /** Any two different names are ordered one way or the other. */
  lemma {:induction false} LexLessConnected(a: string, b: string)
    requires a != b
    ensures LexLess(a, b) || LexLess(b, a)
  {
    if |a| > 0 && |b| > 0 && a[0] == b[0] {
      assert a == [a[0]] + a[1..] && b == [b[0]] + b[1..];
      LexLessConnected(a[1..], b[1..]);
    }
  }

  /** The comparator Adsorter.Less applies to two records: creation time when the sort key is
      exactly "CreationTimestamp", the name for every other key (the empty one included). */
  predicate Precedes<M>(sortBy: string, x: AddressGroup<M>, y: AddressGroup<M>) {
    if sortBy == SortByCreationTime then x.creationTimestamp < y.creationTimestamp
    else LexLess(x.name, y.name)
  }

  /** Under either comparator, Less is a strict order: no record precedes itself, and
      precedence is transitive. */
  lemma PrecedesIsStrictOrder<M>(sortBy: string, x: AddressGroup<M>, y: AddressGroup<M>, z: AddressGroup<M>)
    ensures !Precedes(sortBy, x, x)
    ensures Precedes(sortBy, x, y) && Precedes(sortBy, y, z) ==> Precedes(sortBy, x, z)
  {
    if sortBy != SortByCreationTime {
      LexLessIrreflexive(x.name);
      if LexLess(x.name, y.name) && LexLess(y.name, z.name) {
        LexLessTransitive(x.name, y.name, z.name);
      }
    }
  }

  /** The sort key listTransform reads: the "sort-by" option, or "" when it is absent. */
  function SortByOption(opts: map<string, string>): (sortBy: string)
    ensures "sort-by" in opts ==> sortBy == opts["sort-by"]
    ensures "sort-by" !in opts ==> sortBy == ""
  {
    if "sort-by" in opts then opts["sort-by"] else ""
  }

  /** Only the exact option value "CreationTimestamp" orders by creation time; an absent option
      and every other value order by name. */
  lemma SortOptionSelectsComparator<M>(opts: map<string, string>, x: AddressGroup<M>, y: AddressGroup<M>)
    ensures Precedes(SortByOption(opts), x, y) <==>
      if "sort-by" in opts && opts["sort-by"] == "CreationTimestamp"
      then x.creationTimestamp < y.creationTimestamp
      else LexLess(x.name, y.name)
  {
  }

  // ---------------------------------------------------------------------------------------
  // What the sorter keeps and what it moves

  /** The creation times of a list, in order. */
  function Timestamps<M>(s: seq<AddressGroup<M>>): (ts: seq<int>)
    ensures |ts| == |s|
    ensures forall k :: 0 <= k < |s| ==> ts[k] == s[k].creationTimestamp
  {
    seq(|s|, k requires 0 <= k < |s| => s[k].creationTimestamp)
  }

  /** Position by position, t has the names and members of s. */
  predicate SameNamesAndMembers<M(==)>(s: seq<AddressGroup<M>>, t: seq<AddressGroup<M>>) {
    |s| == |t| &&
    forall k :: 0 <= k < |s| ==> s[k].name == t[k].name && s[k].groupMembers == t[k].groupMembers
  }

  /** The creation times of t are a rearrangement of those of s. */
  predicate SameTimestamps<M>(s: seq<AddressGroup<M>>, t: seq<AddressGroup<M>>) {
    multiset(Timestamps(s)) == multiset(Timestamps(t))
  }

  /** The first n creation times are in ascending order. */
  predicate SortedPrefix<M>(s: seq<AddressGroup<M>>, n: nat)
    requires n <= |s|
  {
    forall p, q :: 0 <= p < q < n ==> s[p].creationTimestamp <= s[q].creationTimestamp
  }

  predicate Ascending(a: seq<int>) {
    forall p, q :: 0 <= p < q < |a| ==> a[p] <= a[q]
  }

  /** No record's creation time is before that of a record ahead of it. */
  predicate TimestampsSorted<M>(s: seq<AddressGroup<M>>) {
    Ascending(Timestamps(s))
  }

  /** Two ascending integer lists with the same elements are the same list. */
  lemma {:induction false} AscendingPermutationUnique(a: seq<int>, b: seq<int>)
    requires Ascending(a) && Ascending(b)
    requires multiset(a) == multiset(b)
    ensures a == b
  {
    assert |a| == |multiset(a)| == |multiset(b)| == |b|;
    if |a| > 0 {
      HeadIsLeast(a, b[0]);
      HeadIsLeast(b, a[0]);
      assert a[0] == b[0];
      assert a == [a[0]] + a[1..] && b == [b[0]] + b[1..];
      assert multiset(a[1..]) == multiset(b[1..]) by {
        assert multiset(a[1..]) == multiset(a) - multiset{a[0]};
        assert multiset(b[1..]) == multiset(b) - multiset{b[0]};
      }
      assert Ascending(a[1..]) && Ascending(b[1..]) by {
        TailAscending(a);
        TailAscending(b);
      }
      AscendingPermutationUnique(a[1..], b[1..]);
    }
  }

  /** The head of an ascending list is its least element. */
  lemma HeadIsLeast(a: seq<int>, x: int)
    requires Ascending(a) && x in multiset(a)
    ensures a[0] <= x
  {
  }

  /** Dropping the head keeps a list ascending. */
  lemma TailAscending(a: seq<int>)
    requires Ascending(a) && |a| > 0
    ensures Ascending(a[1..])
  {
  }

  /** Sorting by creation time has exactly one possible outcome, whatever algorithm sort.Sort
      uses: every name and member list stays in place and the creation times are handed out
      in ascending order. */
  lemma CreationTimeSortIsDetermined<M>(s: seq<AddressGroup<M>>, t1: seq<AddressGroup<M>>, t2: seq<AddressGroup<M>>)
    requires SameNamesAndMembers(t1, s) && SameTimestamps(t1, s) && TimestampsSorted(t1)
    requires SameNamesAndMembers(t2, s) && SameTimestamps(t2, s) && TimestampsSorted(t2)
    ensures t1 == t2
  {
    AscendingPermutationUnique(Timestamps(t1), Timestamps(t2));
    assert forall k :: 0 <= k < |t1| ==> t1[k].creationTimestamp == Timestamps(t1)[k];
  }

  /** Groups x, y, z created at times 2, 1, 3, sorted by creation time: the names keep their
      places and the times 1, 2, 3 are handed out in that order, so x now carries the
      creation time that belonged to y. */
  lemma CreationTimeSortExample(t: seq<AddressGroup<int>>)
    requires SameNamesAndMembers(t, [AddressGroup("x", 2, []), AddressGroup("y", 1, []), AddressGroup("z", 3, [])])
    requires SameTimestamps(t, [AddressGroup("x", 2, []), AddressGroup("y", 1, []), AddressGroup("z", 3, [])])
    requires TimestampsSorted(t)
    ensures t == [AddressGroup("x", 1, []), AddressGroup("y", 2, []), AddressGroup("z", 3, [])]
  {
    var s: seq<AddressGroup<int>> := [AddressGroup("x", 2, []), AddressGroup("y", 1, []), AddressGroup("z", 3, [])];
    assert |t| == 3;
    var ts := Timestamps(t);
    assert Timestamps(s) == [2, 1, 3];
    assert multiset([2, 1, 3]) == multiset([1, 2, 3]);
    assert Ascending([1, 2, 3]);
    AscendingPermutationUnique(ts, [1, 2, 3]);
    assert t[0] == AddressGroup("x", 1, []) by { assert t[0].name == s[0].name && t[0].groupMembers == s[0].groupMembers; }
    assert t[1] == AddressGroup("y", 2, []) by { assert t[1].name == s[1].name && t[1].groupMembers == s[1].groupMembers; }
    assert t[2] == AddressGroup("z", 3, []) by { assert t[2].name == s[2].name && t[2].groupMembers == s[2].groupMembers; }
  }

  /** Adsorter.Swap on a list value: records i and j exchange their creation times and
      nothing else. */
  function SwapTimestamps<M(==)>(s: seq<AddressGroup<M>>, i: nat, j: nat): (t: seq<AddressGroup<M>>)
    requires i < |s| && j < |s|
    ensures SameNamesAndMembers(s, t)
    ensures t[i].creationTimestamp == s[j].creationTimestamp
    ensures t[j].creationTimestamp == s[i].creationTimestamp
    ensures forall k :: 0 <= k < |s| && k != i && k != j ==> t[k] == s[k]
  {
    s[i := s[i].(creationTimestamp := s[j].creationTimestamp)]
     [j := s[j].(creationTimestamp := s[i].creationTimestamp)]
  }

  /** Swapping two creation times keeps the multiset of creation times. */
  lemma SwapTimestampsKeepsTimestamps<M>(s: seq<AddressGroup<M>>, i: nat, j: nat)
    requires i < |s| && j < |s|
    ensures SameTimestamps(SwapTimestamps(s, i, j), s)
  {
    var ts := Timestamps(s);
    assert Timestamps(SwapTimestamps(s, i, j)) == ts[i := ts[j]][j := ts[i]];
  }

  /** While record j is being moved down into the sorted prefix [0, i]: every other
      record of the prefix is in order, and record j comes before everything above it. */
  predicate Inserting<M>(s: seq<AddressGroup<M>>, i: nat, j: nat)
    requires j <= i < |s|
  {
    (forall p, q :: 0 <= p < q <= i && p != j && q != j ==>
       s[p].creationTimestamp <= s[q].creationTimestamp) &&
    (forall q :: j < q <= i ==> s[j].creationTimestamp < s[q].creationTimestamp)
  }

  /** Swapping record j with a later-timed predecessor moves it one place down and keeps the
      insertion invariant. */
  lemma InsertingStep<M>(s: seq<AddressGroup<M>>, i: nat, j: nat)
    requires 0 < j <= i < |s|
    requires Inserting(s, i, j)
    requires s[j].creationTimestamp < s[j - 1].creationTimestamp
    ensures Inserting(SwapTimestamps(s, j, j - 1), i, j - 1)
  {
  }

  /** Once record j no longer comes before its predecessor, the prefix [0, i] is sorted. */
  lemma InsertingDone<M>(s: seq<AddressGroup<M>>, i: nat, j: nat)
    requires j <= i < |s|
    requires Inserting(s, i, j)
    requires j == 0 || s[j - 1].creationTimestamp <= s[j].creationTimestamp
    ensures SortedPrefix(s, i + 1)
  {
  }

  // ---------------------------------------------------------------------------------------
  // The sorter

  /** Adsorter: the sort.Interface over the decoded list. It shares the list's backing array,
      so sorting it rearranges the caller's list. */
  class Adsorter<M(==)> {
    var addressgroups: array<AddressGroup<M>>
    var sortBy: string

    constructor (addressgroups: array<AddressGroup<M>>, sortBy: string)
      ensures this.addressgroups == addressgroups && this.sortBy == sortBy
    {
      this.addressgroups := addressgroups;
      this.sortBy := sortBy;
    }

    function Len(): (n: nat)
      reads this
      ensures n == addressgroups.Length
    {
      addressgroups.Length
    }

    predicate Less(i: int, j: int)
      reads this, addressgroups
      requires 0 <= i < addressgroups.Length && 0 <= j < addressgroups.Length
    {
      Precedes(sortBy, addressgroups[i], addressgroups[j])
    }

    /** Exchanges the creation times of records i and j; names, members and every other
        record stay where they are. */
    method Swap(i: int, j: int)
      requires 0 <= i < addressgroups.Length && 0 <= j < addressgroups.Length
      modifies addressgroups
      ensures addressgroups[..] == SwapTimestamps(old(addressgroups[..]), i, j)
    {
      var ti, tj := addressgroups[i].creationTimestamp, addressgroups[j].creationTimestamp;
      addressgroups[i] := addressgroups[i].(creationTimestamp := tj);
      addressgroups[j] := addressgroups[j].(creationTimestamp := ti);
    }

    /** sort.Sort(adsorter), as an insertion sort that uses only Len, Less and Swap. Names and
        members never move; the creation times are rearranged, and under the timestamp
        comparator they end up in ascending order. */
    method Sort()
      modifies addressgroups
      ensures SameNamesAndMembers(addressgroups[..], old(addressgroups[..]))
      ensures SameTimestamps(addressgroups[..], old(addressgroups[..]))
      ensures sortBy == SortByCreationTime ==> TimestampsSorted(addressgroups[..])
    {
      var i := 0;
      while i < Len()
        invariant 0 <= i <= addressgroups.Length
        invariant SameNamesAndMembers(addressgroups[..], old(addressgroups[..]))
        invariant SameTimestamps(addressgroups[..], old(addressgroups[..]))
        invariant sortBy == SortByCreationTime ==> SortedPrefix(addressgroups[..], i)
      {
        Insert(i);
        i := i + 1;
      }
    }

    /** One pass of the insertion sort: while record i's key is Less than its predecessor's,
        Swap the two and step down. */
    method Insert(i: int)
      requires 0 <= i < addressgroups.Length
      requires sortBy == SortByCreationTime ==> SortedPrefix(addressgroups[..], i)
      modifies addressgroups
      ensures SameNamesAndMembers(addressgroups[..], old(addressgroups[..]))
      ensures SameTimestamps(addressgroups[..], old(addressgroups[..]))
      ensures sortBy == SortByCreationTime ==> SortedPrefix(addressgroups[..], i + 1)
    {
      var j := i;
      while j > 0 && Less(j, j - 1)
        invariant 0 <= j <= i
        invariant SameNamesAndMembers(addressgroups[..], old(addressgroups[..]))
        invariant SameTimestamps(addressgroups[..], old(addressgroups[..]))
        invariant sortBy == SortByCreationTime ==> Inserting(addressgroups[..], i, j)
      {
        ghost var before := addressgroups[..];
        SwapTimestampsKeepsTimestamps(before, j, j - 1);
        if sortBy == SortByCreationTime {
          InsertingStep(before, i, j);
        }
        Swap(j, j - 1);
        j := j - 1;
      }
      if sortBy == SortByCreationTime {
        InsertingDone(addressgroups[..], i, j);
      }
    }
  }

  // ---------------------------------------------------------------------------------------
  // Responses

  /** The IP addresses of the pods, in order. */
  function PodIPs(pods: seq<GroupMember>): (ips: seq<string>)
    ensures |ips| == |pods|
    ensures forall k :: 0 <= k < |pods| ==> ips[k] == pods[k].ip
  {
    if pods == [] then [] else PodIPs(pods[..|pods| - 1]) + [pods[|pods| - 1].ip]
  }

  datatype Response = Response(name: string, pods: seq<GroupMember>) {

    function GetTableHeader(): (header: seq<string>)
      ensures header == ["NAME", "POD-IPS"]
    {
      ["NAME", "POD-IPS"]
    }

    /** The pod-IP cell: the pods' IP addresses, in order, summarised to the column length. */
    method GetPodNames(maxColumnLength: int, summarize: Summarizer) returns (cell: string)
      ensures cell == summarize(PodIPs(pods), maxColumnLength)
    {
      var list := new string[|pods|];
      for i := 0 to |pods|
        invariant forall k :: 0 <= k < i ==> list[k] == pods[k].ip
      {
        list[i] := pods[i].ip;
      }
      assert list[..] == PodIPs(pods);
      cell := summarize(list[..], maxColumnLength);
    }

    /** One cell per header column: the name, then the pod-IP cell. */
    method GetTableRow(maxColumnLength: int, summarize: Summarizer) returns (row: seq<string>)
      ensures |row| == |GetTableHeader()|
      ensures row[0] == name
      ensures row[1] == summarize(PodIPs(pods), maxColumnLength)
    {
      var podNames := GetPodNames(maxColumnLength, summarize);
      row := [name, podNames];
    }

    /** Address-group rows are re-sorted by the printer. */
    function SortRows(): (sorted: bool)
      ensures sorted
    {
      true
    }
  }

  /** r is the response for group g: the same name, and one projected member per wire member,
      in the same order. */
  predicate IsResponseFor<M>(g: AddressGroup<M>, r: Response, project: M -> GroupMember) {
    r.name == g.name &&
    |r.pods| == |g.groupMembers| &&
    forall k :: 0 <= k < |r.pods| ==> r.pods[k] == project(g.groupMembers[k])
  }

  /** A group has exactly one response: transforming is deterministic. */
  lemma ResponseIsUnique<M>(g: AddressGroup<M>, r1: Response, r2: Response, project: M -> GroupMember)
    requires IsResponseFor(g, r1, project) && IsResponseFor(g, r2, project)
    ensures r1 == r2
  {
  }

  /** objectTransform: projects each wire member of the group, in order; a group without
      members gives a response without pods. The options are not consulted. */
  method ObjectTransform<M>(group: AddressGroup<M>, opts: map<string, string>, project: M -> GroupMember)
    returns (r: Response)
    ensures IsResponseFor(group, r, project)
    ensures group.groupMembers == [] ==> r.pods == []
  {
    var pods: seq<GroupMember> := [];
    for k := 0 to |group.groupMembers|
      invariant |pods| == k
      invariant forall p :: 0 <= p < k ==> pods[p] == project(group.groupMembers[p])
    {
      pods := pods + [project(group.groupMembers[k])];
    }
    r := Response(group.name, pods);
  }

  /** listTransform: sorts the decoded list in place by the "sort-by" option, then transforms
      its elements in their new order, one response per element. */
  method ListTransform<M(==)>(items: array<AddressGroup<M>>, opts: map<string, string>, project: M -> GroupMember)
    returns (result: seq<Response>)
    modifies items
    ensures |result| == items.Length
    ensures forall i :: 0 <= i < |result| ==> IsResponseFor(items[i], result[i], project)
    ensures forall i :: 0 <= i < |result| ==> result[i].name == old(items[i].name)
    ensures forall i :: 0 <= i < |result| ==> IsResponseFor(old(items[i]), result[i], project)
    ensures SameNamesAndMembers(items[..], old(items[..]))
    ensures SameTimestamps(items[..], old(items[..]))
    ensures SortByOption(opts) == SortByCreationTime ==> TimestampsSorted(items[..])
  {
    var sortBy := SortByOption(opts);
    var adsorter := new Adsorter(items, sortBy);
    adsorter.Sort();
    ghost var sorted := items[..];
    result := [];
    var i := 0;
    while i < adsorter.Len()
      invariant adsorter.addressgroups == items && items[..] == sorted
      invariant 0 <= i <= items.Length && |result| == i
      invariant forall p :: 0 <= p < i ==> IsResponseFor(items[p], result[p], project)
    {
      var o := ObjectTransform(adsorter.addressgroups[i], opts, project);
      result := result + [o];
      i := i + 1;
    }
  }
}
