/**
 * Gap resolution: `nextAvailablePorts` lists, in ascending order, the port
 * just after every maximal run of consecutive occupied ports.
 */
module GapResolution {

  predicate Ascending(s: seq<int>) {
    forall i, j :: 0 <= i < j < |s| ==> s[i] <= s[j]
  }

  predicate StrictlyAscending(s: seq<int>) {
    forall i, j :: 0 <= i < j < |s| ==> s[i] < s[j]
  }

  /** Every element of a rearrangement of `s` plus `x` is at least a lower bound of both. */
  lemma InsertAbove(x: int, s: seq<int>, r: seq<int>, low: int)
    requires multiset(r) == multiset(s) + multiset{x}
    requires low <= x && forall k :: 0 <= k < |s| ==> low <= s[k]
    ensures forall k :: 0 <= k < |r| ==> low <= r[k]
  {
    forall k | 0 <= k < |r| ensures low <= r[k] {
      assert r[k] in multiset(r);
      if r[k] != x {
        assert r[k] in multiset(s);
        assert r[k] in s;
      }
    }
  }

  /** A port no greater than any element of an ascending sequence can go in front of it. */
  lemma PrependAscending(v: int, r: seq<int>)
    requires Ascending(r) && forall k :: 0 <= k < |r| ==> v <= r[k]
    ensures Ascending([v] + r)
  {
    forall i, j | 0 <= i < j < |[v] + r| ensures ([v] + r)[i] <= ([v] + r)[j] {
      if i > 0 {
        assert ([v] + r)[i] == r[i - 1];
      }
      assert ([v] + r)[j] == r[j - 1];
    }
  }

  /** `x` inserted into an ascending sequence before the first element not below it. */
  function InsertAscending(x: int, s: seq<int>): (r: seq<int>)
    requires Ascending(s)
    ensures Ascending(r)
    ensures multiset(r) == multiset(s) + multiset{x}
    decreases |s|
  {
    if s == [] || x <= s[0] then
      PrependAscending(x, s);
      [x] + s
    else
      var rest := InsertAscending(x, s[1..]);
      assert s == [s[0]] + s[1..];
      InsertAbove(x, s[1..], rest, s[0]);
      PrependAscending(s[0], rest);
      [s[0]] + rest
  }

  /**
   * `sort.Slice(xs, less)` with `less` comparing the integers: the same
   * elements, rearranged into ascending order.
   */
  function SortAscending(xs: seq<int>): (r: seq<int>)
    ensures Ascending(r)
    ensures multiset(r) == multiset(xs)
    decreases |xs|
  {
    if xs == [] then []
    else
      assert xs == [xs[0]] + xs[1..];
      InsertAscending(xs[0], SortAscending(xs[1..]))
  }

  /** A port just past a run of occupied ports: its predecessor is occupied and it is not. */
  predicate IsNextPort(occupied: set<int>, c: int) {
    c - 1 in occupied && c !in occupied
  }

  /** An element that occurs at two positions occurs at least twice. */
  lemma {:induction false} RepeatedElement(s: seq<int>, i: nat, j: nat)
    requires i < j < |s| && s[i] == s[j]
    ensures multiset(s)[s[i]] >= 2
  {
    assert s == s[..j] + s[j..];
    assert s[i] == s[..j][i];
    assert s[j] == s[j..][0];
    assert s[i] in multiset(s[..j]) && s[j] in multiset(s[j..]);
  }

  /** An ascending sequence whose multiset is a set's rises strictly. */
  lemma SetSortedIsStrict(sorted: seq<int>, occupied: set<int>)
    requires Ascending(sorted) && multiset(sorted) == multiset(occupied)
    ensures StrictlyAscending(sorted)
  {
    forall i, j | 0 <= i < j < |sorted| ensures sorted[i] < sorted[j] {
      if sorted[i] == sorted[j] {
        RepeatedElement(sorted, i, j);
      }
    }
  }

  /** The keys of a set, sorted: strictly ascending, the same members, as many. */
  lemma SortedKeys(sorted: seq<int>, occupied: set<int>)
    requires Ascending(sorted) && multiset(sorted) == multiset(occupied)
    ensures StrictlyAscending(sorted)
    ensures forall x :: x in occupied <==> x in sorted
    ensures |sorted| == |occupied|
  {
    SetSortedIsStrict(sorted, occupied);
    forall x ensures x in occupied <==> x in sorted {
      assert x in occupied <==> x in multiset(occupied);
      assert x in sorted <==> x in multiset(sorted);
    }
    assert |multiset(sorted)| == |multiset(occupied)|;
  }

  /** The last port of a run in the sorted keys is followed by a free port. */
  lemma RunEnd(sorted: seq<int>, i: nat)
    requires StrictlyAscending(sorted)
    requires i < |sorted| && (i == |sorted| - 1 || sorted[i] + 1 != sorted[i + 1])
    ensures sorted[i] + 1 !in sorted
  {
    if sorted[i] + 1 in sorted {
      var k :| 0 <= k < |sorted| && sorted[k] == sorted[i] + 1;
    }
  }

  /** The first loop of `nextAvailablePorts`: the keys of the map, in map order. */
  method Keys(hostPorts: set<int>) returns (hostPortsSlice: seq<int>)
    ensures multiset(hostPortsSlice) == multiset(hostPorts)
  {
    hostPortsSlice := [];
    var rest := hostPorts;
    while rest != {}
      invariant rest <= hostPorts
      invariant multiset(hostPortsSlice) == multiset(hostPorts - rest)
      decreases rest
    {
      assert exists k :: k in rest by {
        if forall k :: k !in rest {
          assert false;
        }
      }
      var key :| key in rest;
      assert hostPorts - (rest - {key}) == (hostPorts - rest) + {key};
      hostPortsSlice := hostPortsSlice + [key];
      rest := rest - {key};
    }
    assert hostPorts - rest == hostPorts;
  }

  /** Appending a port above every element keeps a sequence strictly ascending. */
  lemma AppendAbove(s: seq<int>, v: int)
    requires StrictlyAscending(s) && forall k :: 0 <= k < |s| ==> s[k] < v
    ensures StrictlyAscending(s + [v])
  {
  }

  /** Whether position `j` of the sorted keys ends a run: it is last, or the next key is not one more. */
  predicate IsRunEndAt(sorted: seq<int>, j: nat)
    requires j < |sorted|
  {
    j == |sorted| - 1 || sorted[j] + 1 != sorted[j + 1]
  }

  /** What the scan has emitted after looking at the first `i` sorted keys. */
  ghost function Emitted(sorted: seq<int>, i: nat): seq<int>
    requires i <= |sorted|
  {
    if i == 0 then []
    else Emitted(sorted, i - 1) + (if IsRunEndAt(sorted, i - 1) then [sorted[i - 1] + 1] else [])
  }

  /** What the scan emits rises strictly and stays at or below the last key seen plus one. */
  lemma {:induction false} EmittedAscending(sorted: seq<int>, i: nat)
    requires StrictlyAscending(sorted) && i <= |sorted|
    ensures StrictlyAscending(Emitted(sorted, i))
    ensures |Emitted(sorted, i)| <= i
    ensures forall k :: 0 <= k < |Emitted(sorted, i)| ==> 0 < i && Emitted(sorted, i)[k] <= sorted[i - 1] + 1
  {
    if i > 0 {
      EmittedAscending(sorted, i - 1);
      if IsRunEndAt(sorted, i - 1) {
        AppendAbove(Emitted(sorted, i - 1), sorted[i - 1] + 1);
      }
    }
  }

  /** What the scan emits holds only free ports just past an occupied one. */
  lemma {:induction false} EmittedSound(sorted: seq<int>, i: nat)
    requires StrictlyAscending(sorted) && i <= |sorted|
    ensures forall c :: c in Emitted(sorted, i) ==> c - 1 in sorted && c !in sorted
  {
    if i > 0 {
      EmittedSound(sorted, i - 1);
      if IsRunEndAt(sorted, i - 1) {
        RunEnd(sorted, i - 1);
        assert sorted[i - 1] in sorted;
      }
    }
  }

  /** What the scan emits holds the port after every run end seen. */
  lemma {:induction false} EmittedComplete(sorted: seq<int>, i: nat)
    requires StrictlyAscending(sorted) && i <= |sorted|
    ensures forall j :: 0 <= j < i && sorted[j] + 1 !in sorted ==> sorted[j] + 1 in Emitted(sorted, i)
  {
    if i > 0 {
      EmittedComplete(sorted, i - 1);
      if !IsRunEndAt(sorted, i - 1) {
        assert sorted[i] in sorted;
      }
    }
  }

  /** Emitting `v + 1` for every run end `v` of the sorted keys yields exactly the next ports. */
  lemma RunEndsAreNextPorts(next: seq<int>, sorted: seq<int>, occupied: set<int>)
    requires forall x :: x in occupied <==> x in sorted
    requires forall c :: c in next ==> c - 1 in sorted && c !in sorted
    requires forall j :: 0 <= j < |sorted| && sorted[j] + 1 !in sorted ==> sorted[j] + 1 in next
    ensures forall c :: c in next <==> IsNextPort(occupied, c)
  {
    forall c | IsNextPort(occupied, c) ensures c in next {
      var j :| 0 <= j < |sorted| && sorted[j] == c - 1;
    }
  }

  /** Scanning the sorted keys of a set emits exactly its next ports, in ascending order. */
  lemma ScanOfSortedKeys(sorted: seq<int>, occupied: set<int>)
    requires Ascending(sorted) && multiset(sorted) == multiset(occupied)
    ensures StrictlyAscending(Emitted(sorted, |sorted|))
    ensures |Emitted(sorted, |sorted|)| <= |occupied|
    ensures forall c :: c in Emitted(sorted, |sorted|) <==> IsNextPort(occupied, c)
  {
    SortedKeys(sorted, occupied);
    var next := Emitted(sorted, |sorted|);
    EmittedAscending(sorted, |sorted|);
    EmittedSound(sorted, |sorted|);
    EmittedComplete(sorted, |sorted|);
    RunEndsAreNextPorts(next, sorted, occupied);
  }

  /**
   * `nextAvailablePorts`: gathers the occupied ports in map order, sorts them
   * and emits `v + 1` for the last port `v` of every run. The result rises
   * strictly, holds exactly the ports whose predecessor is occupied and which
   * are free, and is no longer than the occupied set.
   */
  method NextAvailablePorts(hostPorts: set<int>) returns (nextPorts: seq<int>)
    ensures StrictlyAscending(nextPorts)
    ensures forall c :: c in nextPorts <==> IsNextPort(hostPorts, c)
    ensures |nextPorts| <= |hostPorts|
    ensures hostPorts == {} ==> nextPorts == []
  {
    var hostPortsSlice := Keys(hostPorts);
    hostPortsSlice := SortAscending(hostPortsSlice);
    nextPorts := [];
    var i := 0;
    while i < |hostPortsSlice|
      invariant i <= |hostPortsSlice|
      invariant nextPorts == Emitted(hostPortsSlice, i)
    {
      if i == |hostPortsSlice| - 1 {
        nextPorts := nextPorts + [hostPortsSlice[i] + 1];
        assert nextPorts == Emitted(hostPortsSlice, |hostPortsSlice|);
        break;
      }
      if hostPortsSlice[i] + 1 != hostPortsSlice[i + 1] {
        nextPorts := nextPorts + [hostPortsSlice[i] + 1];
      }
      i := i + 1;
    }
    ScanOfSortedKeys(hostPortsSlice, hostPorts);
  }

  /**
   * A strictly ascending sequence is fixed by its members, so the result of
   * `nextAvailablePorts` is the one ascending list of the next ports.
   */
  lemma {:induction false} StrictlyAscendingUnique(a: seq<int>, b: seq<int>)
    requires StrictlyAscending(a) && StrictlyAscending(b)
    requires forall x :: x in a <==> x in b
    ensures a == b
    decreases |a|
  {
    assert |b| > 0 ==> b[0] in b;
    if a != [] {
      assert a[0] in a;
      assert b != [];
      assert b[0] in b;
      assert a[0] == b[0];
      forall x ensures x in a[1..] <==> x in b[1..] {
        assert x in a[1..] <==> x in a && x != a[0];
        assert x in b[1..] <==> x in b && x != b[0];
      }
      StrictlyAscendingUnique(a[1..], b[1..]);
      assert a == [a[0]] + a[1..] && b == [b[0]] + b[1..];
    }
  }

  /** The runs 8080-8082 and 9090 are followed by 8083 and 9091. */
  lemma NextPortsExample(nextPorts: seq<int>)
    requires StrictlyAscending(nextPorts)
    requires forall c :: c in nextPorts <==> IsNextPort({8080, 8081, 8082, 9090}, c)
    ensures nextPorts == [8083, 9091]
  {
    StrictlyAscendingUnique(nextPorts, [8083, 9091]);
  }

  /** When no port is negative, no next port is below 1. */
  lemma NextPortsPositive(occupied: set<int>, c: int)
    requires forall p :: p in occupied ==> p >= 0
    requires IsNextPort(occupied, c)
    ensures c >= 1
  {
  }
}
