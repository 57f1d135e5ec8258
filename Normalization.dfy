/**
 * Normalization: `hostPorts` and `currentHostPorts` turn short-syntax port
 * entries ("8080:80", "127.0.0.1:9090:9090", "3000-3002:3000-3002") into the
 * set of occupied host ports. Go's `map[int64]struct{}` is a set of integers
 * or nil: a host field that does not parse leaves a nil map behind, and a
 * later write into it is a run-time panic.
 */
module Normalization {
  import opened Wrappers
  import opened Strconv
  import opened Strings
  import opened ComposeFile

  /**
   * The host field of an entry: field 0 of a two-field and field 1 of a
   * three-field split on ':'; None for an entry with no ':' or with any other
   * number of fields, which `hostPorts` skips.
   */
  function HostField(entry: string): Option<string> {
    if ':' !in entry then None
    else
      var fields := Split(entry, ':');
      if |fields| == 2 then Some(fields[0])
      else if |fields| == 3 then Some(fields[1])
      else None
  }

  /** The integers from `a` to `b` inclusive; empty when a > b. */
  function Interval(a: int, b: int): set<int>
    decreases b - a
  {
    if b < a then {} else Interval(a, b - 1) + {b}
  }

  /** A port is in the interval exactly when it lies between its bounds. */
  lemma {:induction false} IntervalMembers(a: int, b: int, p: int)
    ensures p in Interval(a, b) <==> a <= p <= b
    decreases b - a
  {
    if a <= b {
      IntervalMembers(a, b - 1, p);
    }
  }

  /**
   * The host ports a host field names: every integer from A to B for "A-B"
   * (only the first two '-' pieces count), the one port for a number, none
   * for "". A piece that does not parse is an InvalidPortNumber error.
   */
  function HostSpecPorts(hostPort: string): Result<set<int>, PortsError> {
    if '-' in hostPort then
      var bounds := Split(hostPort, '-');
      match ParseInt(bounds[0])
      case None => Failure(InvalidPortNumber(bounds[0]))
      case Some(a) =>
        match ParseInt(bounds[1])
        case None => Failure(InvalidPortNumber(bounds[1]))
        case Some(b) => Success(Interval(a, b))
    else if hostPort == "" then Success({})
    else
      match ParseInt(hostPort)
      case None => Failure(InvalidPortNumber(hostPort))
      case Some(n) => Success({n})
  }

  /** A Go `map[int64]struct{}` value: nil, or the set of ports it holds. */
  datatype PortMap = Nil | Live(ports: set<int>)

  /** The keys a range loop over the map visits; a nil map has none. */
  function KeysOf(m: PortMap): set<int> {
    if m.Nil? then {} else m.ports
  }

  /** What a call yields: its map and error results, or a run-time panic from a write into a nil map. */
  datatype Update = Panic | Updated(hostPorts: PortMap, err: Option<PortsError>)

  /**
   * `currentHostPorts` on any map: a host field that does not parse gives a
   * nil map and its error; otherwise its ports are added to a live map, while
   * a nil map panics unless there is nothing to add.
   */
  function HostStep(hostPort: string, hostPorts: PortMap): Update {
    match HostSpecPorts(hostPort)
    case Failure(e) => Updated(Nil, Some(e))
    case Success(named) =>
      if hostPorts.Live? then Updated(Live(hostPorts.ports + named), None)
      else if named == {} then Updated(Nil, None)
      else Panic
  }

  /** An entry whose host field, if it has one, parses. */
  ghost predicate WellFormedEntry(entry: string) {
    HostField(entry).Some? ==> HostSpecPorts(HostField(entry).value).Success?
  }

  /** The host ports one well-formed entry occupies. */
  ghost function EntryPorts(entry: string): set<int> {
    if HostField(entry).Some? && HostSpecPorts(HostField(entry).value).Success?
    then HostSpecPorts(HostField(entry).value).value
    else {}
  }

  /** The host ports a collection of entries occupies, whatever their order. */
  ghost function OccupiedBy(entries: multiset<string>): set<int> {
    set e, p | e in entries && p in EntryPorts(e) :: p
  }

  /**
   * `currentHostPorts`: parses the host field, then writes every port it
   * names into the map, one at a time; a number that does not parse gives a
   * nil map and the error before anything is written.
   */
  method CurrentHostPorts(hostPort: string, hostPorts: PortMap) returns (r: Update)
    ensures r == HostStep(hostPort, hostPorts)
  {
    if '-' in hostPort {
      var hostPortRange := Split(hostPort, '-');
      var startRange := ParseInt(hostPortRange[0]);
      if startRange.None? {
        return Updated(Nil, Some(InvalidPortNumber(hostPortRange[0])));
      }
      var endRange := ParseInt(hostPortRange[1]);
      if endRange.None? {
        return Updated(Nil, Some(InvalidPortNumber(hostPortRange[1])));
      }
      var updated := hostPorts;
      var i: int := startRange.value;
      while i <= endRange.value
        invariant startRange.value <= i
        invariant i <= endRange.value + 1 || i == startRange.value
        invariant updated.Live? <==> hostPorts.Live?
        invariant updated.Nil? ==> i == startRange.value
        invariant updated.Live? ==> updated.ports == hostPorts.ports + Interval(startRange.value, i - 1)
        decreases endRange.value - i
      {
        if updated.Nil? {
          IntervalMembers(startRange.value, endRange.value, i);
          return Panic;
        }
        updated := Live(updated.ports + {i});
        i := i + 1;
      }
      assert updated.Nil? ==> Interval(startRange.value, endRange.value) == {};
      assert updated.Live? ==> Interval(startRange.value, i - 1) == Interval(startRange.value, endRange.value);
      return Updated(updated, None);
    } else if hostPort != "" {
      var hp := ParseInt(hostPort);
      if hp.None? {
        return Updated(Nil, Some(InvalidPortNumber(hostPort)));
      }
      if hostPorts.Nil? {
        return Panic;
      }
      return Updated(Live(hostPorts.ports + {hp.value}), None);
    }
    assert hostPorts.Live? ==> hostPorts.ports + {} == hostPorts.ports;
    return Updated(hostPorts, None);
  }

  /** One more entry adds the ports it occupies. */
  lemma OccupiedByAdd(entries: multiset<string>, e: string)
    ensures OccupiedBy(entries + multiset{e}) == OccupiedBy(entries) + EntryPorts(e)
  {
    var more := entries + multiset{e};
    forall p | p in OccupiedBy(more)
      ensures p in OccupiedBy(entries) + EntryPorts(e)
    {
      var e' :| e' in more && p in EntryPorts(e');
      if e' != e {
        assert e' in entries;
      }
    }
    forall p | p in OccupiedBy(entries)
      ensures p in OccupiedBy(more)
    {
      var e' :| e' in entries && p in EntryPorts(e');
      assert e' in more;
    }
    forall p | p in EntryPorts(e)
      ensures p in OccupiedBy(more)
    {
      assert e in more;
    }
  }

  /**
   * `hostPorts` from a given map and error: every entry with a host field
   * goes through `currentHostPorts`, whose two results replace both; a panic
   * ends the run.
   */
  ghost function HostFold(entries: seq<string>, hostPorts: PortMap, err: Option<PortsError>): Update
    decreases |entries|
  {
    if entries == [] then Updated(hostPorts, err)
    else
      match HostField(entries[0])
      case None => HostFold(entries[1..], hostPorts, err)
      case Some(hostPort) =>
        match HostStep(hostPort, hostPorts)
        case Panic => Panic
        case Updated(m, e) => HostFold(entries[1..], m, e)
  }

  /**
   * `hostPorts`: starts from an empty map and passes the host field of every
   * entry with one or two ':' to `currentHostPorts`, keeping both its results.
   */
  method HostPorts(occupiedPortRanges: seq<string>, err: Option<PortsError>) returns (r: Update)
    ensures r == HostFold(occupiedPortRanges, Live({}), err)
  {
    var hostPorts := Live({});
    var errOut := err;
    for i := 0 to |occupiedPortRanges|
      invariant HostFold(occupiedPortRanges, Live({}), err) == HostFold(occupiedPortRanges[i..], hostPorts, errOut)
    {
      var p := occupiedPortRanges[i];
      assert occupiedPortRanges[i..][1..] == occupiedPortRanges[i + 1..];
      if ':' in p {
        var dPorts := Split(p, ':');
        if |dPorts| == 2 {
          var hostPort := dPorts[0];
          var u := CurrentHostPorts(hostPort, hostPorts);
          if u.Panic? {
            return Panic;
          }
          hostPorts, errOut := u.hostPorts, u.err;
        }
        if |dPorts| == 3 {
          var hostPort := dPorts[1];
          var u := CurrentHostPorts(hostPort, hostPorts);
          if u.Panic? {
            return Panic;
          }
          hostPorts, errOut := u.hostPorts, u.err;
        }
      }
    }
    assert occupiedPortRanges[|occupiedPortRanges|..] == [];
    return Updated(hostPorts, errOut);
  }

  /**
   * With every host field parsing, `hostPorts` never panics: the map holds
   * exactly the ports the entries occupy, and the error is nil once any entry
   * had a host field and the one passed in otherwise.
   */
  lemma {:induction false} WellFormedFold(entries: seq<string>, s: set<int>, err: Option<PortsError>)
    requires forall e :: e in entries ==> WellFormedEntry(e)
    ensures HostFold(entries, Live(s), err)
         == Updated(Live(s + OccupiedBy(multiset(entries))),
                    if exists e :: e in entries && HostField(e).Some? then None else err)
    decreases |entries|
  {
    if entries == [] {
      assert OccupiedBy(multiset(entries)) == {};
      assert s + {} == s;
    } else {
      var e, rest := entries[0], entries[1..];
      assert entries == [e] + rest;
      assert multiset(entries) == multiset(rest) + multiset{e};
      assert forall x :: x in entries <==> x == e || x in rest;
      OccupiedByAdd(multiset(rest), e);
      assert WellFormedEntry(e);
      match HostField(e)
      case None =>
        WellFormedFold(rest, s, err);
        assert s + OccupiedBy(multiset(rest)) == s + OccupiedBy(multiset(entries));
      case Some(hostPort) =>
        WellFormedFold(rest, s + EntryPorts(e), None);
        assert s + EntryPorts(e) + OccupiedBy(multiset(rest)) == s + OccupiedBy(multiset(entries));
    }
  }

  /** With every host field parsing, the order of the entries does not matter to `hostPorts`. */
  lemma HostPortsOrderFree(a: seq<string>, b: seq<string>, err: Option<PortsError>)
    requires multiset(a) == multiset(b)
    requires forall e :: e in a ==> WellFormedEntry(e)
    ensures HostFold(a, Live({}), err) == HostFold(b, Live({}), err)
  {
    assert forall e :: e in a <==> e in multiset(a);
    assert forall e :: e in b <==> e in multiset(b);
    WellFormedFold(a, {}, err);
    WellFormedFold(b, {}, err);
  }

  // ----- Field selection -----

  /** "host:container" selects the host field. */
  lemma HostFieldTwoFields(host: string, container: string)
    requires ':' !in host && ':' !in container
    ensures HostField(host + ":" + container) == Some(host)
  {
    SplitAfterField(host, ':', container);
    SplitWithoutSeparator(container, ':');
  }

  /** "ip:host:container" selects the middle field. */
  lemma HostFieldThreeFields(ip: string, host: string, container: string)
    requires ':' !in ip && ':' !in host && ':' !in container
    ensures HostField(ip + ":" + host + ":" + container) == Some(host)
  {
    SplitAfterField(ip, ':', host + ":" + container);
    SplitAfterField(host, ':', container);
    SplitWithoutSeparator(container, ':');
    assert ip + ":" + host + ":" + container == ip + [':'] + (host + [':'] + container);
  }

  /** An entry has a host field exactly when it holds one or two ':'; it is then the field before the last ':'. */
  lemma HostFieldColons(entry: string)
    ensures HostField(entry).Some? <==> 1 <= Occurrences(entry, ':') <= 2
    ensures HostField(entry).Some? ==> HostField(entry).value == Split(entry, ':')[Occurrences(entry, ':') - 1]
  {
  }

  /** Entries without a host field, such as a bare container port "80", occupy nothing. */
  lemma NoHostFieldNoPorts(entry: string)
    requires HostField(entry).None?
    ensures EntryPorts(entry) == {}
  {
  }

  // ----- Host fields -----

  /** A host field that is one number occupies exactly that port. */
  lemma SinglePort(hostPort: string, n: nat)
    requires '-' !in hostPort && ParseInt(hostPort) == Some(n)
    ensures HostSpecPorts(hostPort) == Success({n})
  {
  }

  /** The printed form of any port, used as a host field, occupies exactly that port. */
  lemma SinglePortPrinted(n: nat)
    ensures HostSpecPorts(FormatInt(n)) == Success({n})
  {
    ParseFormat(n);
  }

  /** An empty host field, as in ":80", occupies nothing and is no error. */
  lemma EmptyHostField()
    ensures HostSpecPorts("") == Success({})
  {
  }

  /** A host field that is not a number is an error that names it. */
  lemma NotANumber(hostPort: string)
    requires hostPort != "" && '-' !in hostPort && ParseInt(hostPort).None?
    ensures HostSpecPorts(hostPort) == Failure(InvalidPortNumber(hostPort))
  {
  }

  /** "abc" is not a port. */
  lemma NotANumberExample()
    ensures HostSpecPorts("abc") == Failure(InvalidPortNumber("abc"))
  {
    assert !IsDigit("abc"[0]);
  }

  /** "A-B" occupies exactly the ports from A to B. */
  lemma {:induction false} RangePorts(first: string, last: string, a: nat, b: nat)
    requires '-' !in first && '-' !in last
    requires ParseInt(first) == Some(a) && ParseInt(last) == Some(b)
    ensures HostSpecPorts(first + "-" + last).Success?
    ensures forall p :: p in HostSpecPorts(first + "-" + last).value <==> a <= p <= b
  {
    SplitAfterField(first, '-', last);
    SplitWithoutSeparator(last, '-');
    assert '-' in first + "-" + last by {
      assert (first + "-" + last)[|first|] == '-';
    }
    forall p ensures p in Interval(a, b) <==> a <= p <= b {
      IntervalMembers(a, b, p);
    }
  }

  /** "A-B" with A > B occupies nothing. */
  lemma {:induction false} ReversedRangeEmpty(first: string, last: string, a: nat, b: nat)
    requires '-' !in first && '-' !in last
    requires ParseInt(first) == Some(a) && ParseInt(last) == Some(b) && a > b
    ensures HostSpecPorts(first + "-" + last) == Success({})
  {
    RangePorts(first, last, a, b);
  }

  /** The first two '-' pieces of "A-B-rest" are A and B. */
  lemma {:induction false} RangeBounds(first: string, last: string, rest: string)
    requires '-' !in first && '-' !in last
    ensures |Split(first + "-" + last + "-" + rest, '-')| >= 2
    ensures Split(first + "-" + last + "-" + rest, '-')[0] == first
    ensures Split(first + "-" + last + "-" + rest, '-')[1] == last
  {
    assert first + "-" + last + "-" + rest == first + ['-'] + (last + ['-'] + rest);
    SplitAfterField(first, '-', last + "-" + rest);
    SplitAfterField(last, '-', rest);
  }

  /** Only the first two '-' pieces count: "A-B-rest" occupies what "A-B" does. */
  lemma {:induction false} RangeIgnoresRest(first: string, last: string, rest: string)
    requires '-' !in first && '-' !in last
    ensures HostSpecPorts(first + "-" + last + "-" + rest) == HostSpecPorts(first + "-" + last)
  {
    var long := first + "-" + last + "-" + rest;
    var short := first + "-" + last;
    RangeBounds(first, last, rest);
    SplitAfterField(first, '-', last);
    SplitWithoutSeparator(last, '-');
    assert long[|first|] == '-' && short[|first|] == '-';
  }

  /** A range missing its upper bound, such as "3000-", is an error. */
  lemma {:induction false} RangeMissingBound(first: string)
    requires '-' !in first
    ensures HostSpecPorts(first + "-").Failure?
  {
    SplitAfterField(first, '-', "");
    assert first + "-" == first + ['-'] + "";
    assert (first + "-")[|first|] == '-';
  }

  // ----- currentHostPorts -----

  /**
   * On a live map `currentHostPorts` never panics; it fails, with a nil map,
   * exactly when the host field does not parse, and otherwise only adds ports
   * the host field names.
   */
  lemma LiveStep(hostPort: string, hostPorts: set<int>)
    ensures HostStep(hostPort, Live(hostPorts)).Updated?
    ensures HostStep(hostPort, Live(hostPorts)).err.Some? <==> HostSpecPorts(hostPort).Failure?
    ensures HostSpecPorts(hostPort).Failure? ==>
      HostStep(hostPort, Live(hostPorts)) == Updated(Nil, Some(HostSpecPorts(hostPort).error))
    ensures HostSpecPorts(hostPort).Success? ==>
      var m := HostStep(hostPort, Live(hostPorts)).hostPorts;
      m.Live? && hostPorts <= m.ports && m.ports - hostPorts <= HostSpecPorts(hostPort).value
      && HostSpecPorts(hostPort).value <= m.ports
  {
  }

  /** On a nil map `currentHostPorts` panics exactly when the host field parses and names a port. */
  lemma NilStep(hostPort: string)
    ensures HostStep(hostPort, Nil).Panic?
        <==> HostSpecPorts(hostPort).Success? && HostSpecPorts(hostPort).value != {}
    ensures HostStep(hostPort, Nil).Updated? ==> HostStep(hostPort, Nil).hostPorts == Nil
  {
  }

  /** Adding ports that are all present already leaves the map as it was. */
  lemma AddPresentPorts(hostPort: string, hostPorts: set<int>)
    requires HostSpecPorts(hostPort).Success? && HostSpecPorts(hostPort).value <= hostPorts
    ensures HostStep(hostPort, Live(hostPorts)) == Updated(Live(hostPorts), None)
  {
    assert hostPorts + HostSpecPorts(hostPort).value == hostPorts;
  }

  /** Declaring the same host field twice occupies what declaring it once does. */
  lemma StepIdempotent(hostPort: string, hostPorts: set<int>)
    requires HostSpecPorts(hostPort).Success?
    ensures HostStep(hostPort, HostStep(hostPort, Live(hostPorts)).hostPorts) == HostStep(hostPort, Live(hostPorts))
  {
    var named := HostSpecPorts(hostPort).value;
    assert hostPorts + named + named == hostPorts + named;
  }

  /** The order in which two host fields that parse are added does not matter. */
  lemma StepCommutes(first: string, second: string, hostPorts: set<int>)
    requires HostSpecPorts(first).Success? && HostSpecPorts(second).Success?
    ensures HostStep(second, HostStep(first, Live(hostPorts)).hostPorts)
         == HostStep(first, HostStep(second, Live(hostPorts)).hostPorts)
  {
    var a, b := HostSpecPorts(first).value, HostSpecPorts(second).value;
    assert hostPorts + a + b == hostPorts + b + a;
  }

  // ----- hostPorts -----

  /** A second copy of an entry adds no port. */
  lemma DuplicateEntry(entries: multiset<string>, e: string)
    requires e in entries
    ensures OccupiedBy(entries + multiset{e}) == OccupiedBy(entries)
  {
    OccupiedByAdd(entries, e);
    forall p | p in EntryPorts(e) ensures p in OccupiedBy(entries) {
      assert e in entries;
    }
  }

  /** Every host port a host field names is a natural number. */
  lemma HostSpecNonNegative(hostPort: string, p: int)
    requires HostSpecPorts(hostPort).Success? && p in HostSpecPorts(hostPort).value
    ensures p >= 0
  {
    if '-' in hostPort {
      var bounds := Split(hostPort, '-');
      IntervalMembers(ParseInt(bounds[0]).value, ParseInt(bounds[1]).value, p);
    }
  }

  /** Every occupied port is a natural number. */
  lemma OccupiedNonNegative(entries: multiset<string>, p: int)
    requires p in OccupiedBy(entries)
    ensures p >= 0
  {
    var e :| e in entries && p in EntryPorts(e);
    HostSpecNonNegative(HostField(e).value, p);
  }

  // ----- Examples -----

  /** "8080" parses to 8080. */
  lemma ParseExample()
    ensures ParseInt("8080") == Some(8080)
  {
    assert "8080"[..3] == "808" && "808"[..2] == "80" && "80"[..1] == "8" && "8"[..0] == "";
  }

  /** "abc:80" has host field "abc", which does not parse. */
  lemma BadEntryExample()
    ensures HostField("abc:80") == Some("abc")
    ensures HostSpecPorts("abc") == Failure(InvalidPortNumber("abc"))
  {
    HostFieldTwoFields("abc", "80");
    assert "abc" + ":" + "80" == "abc:80";
    NotANumberExample();
  }

  /** "8080:80" has host field "8080", which names port 8080. */
  lemma GoodEntryExample()
    ensures HostField("8080:80") == Some("8080")
    ensures HostSpecPorts("8080") == Success({8080})
  {
    HostFieldTwoFields("8080", "80");
    assert "8080" + ":" + "80" == "8080:80";
    ParseExample();
    assert '-' !in "8080";
    SinglePort("8080", 8080);
  }

  /** Whether the first k entries all parse and occupy no port. */
  ghost predicate PortFree(entries: seq<string>, k: nat) {
    forall i :: 0 <= i < k && i < |entries| ==> WellFormedEntry(entries[i]) && EntryPorts(entries[i]) == {}
  }

  /** Dropping the first entry keeps the rest port-free. */
  lemma PortFreeTail(entries: seq<string>, k: nat)
    requires 0 < k <= |entries| && PortFree(entries, k)
    ensures PortFree(entries[1..], k - 1)
  {
    forall i | 0 <= i < k - 1 && i < |entries| - 1
      ensures WellFormedEntry(entries[1..][i]) && EntryPorts(entries[1..][i]) == {}
    {
      assert entries[1..][i] == entries[i + 1];
    }
  }

  /** Once the map is nil, every later entry that names a port panics, whatever port-free entries came between. */
  lemma {:induction false} NilThenWritePanics(entries: seq<string>, err: Option<PortsError>, k: nat)
    requires k < |entries| && HostField(entries[k]).Some?
    requires HostSpecPorts(HostField(entries[k]).value).Success?
    requires HostSpecPorts(HostField(entries[k]).value).value != {}
    requires PortFree(entries, k)
    ensures HostFold(entries, Nil, err) == Panic
    decreases k
  {
    if k > 0 {
      assert WellFormedEntry(entries[0]) && EntryPorts(entries[0]) == {};
      PortFreeTail(entries, k);
      assert entries[1..][k - 1] == entries[k];
      match HostField(entries[0])
      case None =>
        NilThenWritePanics(entries[1..], err, k - 1);
      case Some(hostPort) =>
        NilThenWritePanics(entries[1..], None, k - 1);
    }
  }

  /** Running `hostPorts` over two runs of entries is running it over the first, then the second from there. */
  lemma {:induction false} HostFoldConcat(a: seq<string>, b: seq<string>, hostPorts: PortMap, err: Option<PortsError>)
    ensures HostFold(a + b, hostPorts, err)
         == match HostFold(a, hostPorts, err)
            case Panic => Panic
            case Updated(m, e) => HostFold(b, m, e)
    decreases |a|
  {
    if a == [] {
      assert a + b == b;
    } else {
      assert (a + b)[0] == a[0] && (a + b)[1..] == a[1..] + b;
      match HostField(a[0])
      case None =>
        HostFoldConcat(a[1..], b, hostPorts, err);
      case Some(hostPort) =>
        match HostStep(hostPort, hostPorts)
        case Panic =>
        case Updated(m, e) =>
          HostFoldConcat(a[1..], b, m, e);
    }
  }

  /**
   * When the very last entry has a host field that does not parse, and the
   * entries before it did not panic, `hostPorts` returns a nil map and that
   * entry's error.
   */
  lemma TrailingFailure(entries: seq<string>, bad: string, err: Option<PortsError>)
    requires HostFold(entries, Live({}), err).Updated?
    requires HostField(bad).Some? && HostSpecPorts(HostField(bad).value).Failure?
    ensures HostFold(entries + [bad], Live({}), err)
         == Updated(Nil, Some(HostSpecPorts(HostField(bad).value).error))
  {
    HostFoldConcat(entries, [bad], Live({}), err);
    assert [bad][1..] == [];
  }

  /**
   * A host field that does not parse, followed by an entry naming a port with
   * only port-free entries between, makes `hostPorts` panic.
   */
  lemma FailureThenWritePanics(before: seq<string>, bad: string, after: seq<string>, err: Option<PortsError>, k: nat)
    requires HostFold(before, Live({}), err).Updated?
    requires HostField(bad).Some? && HostSpecPorts(HostField(bad).value).Failure?
    requires k < |after| && HostField(after[k]).Some?
    requires HostSpecPorts(HostField(after[k]).value).Success?
    requires HostSpecPorts(HostField(after[k]).value).value != {}
    requires PortFree(after, k)
    ensures HostFold(before + [bad] + after, Live({}), err) == Panic
  {
    TrailingFailure(before, bad, err);
    HostFoldConcat(before + [bad], after, Live({}), err);
    NilThenWritePanics(after, Some(HostSpecPorts(HostField(bad).value).error), k);
  }
}
