/**
 * Handler: `Handler.Ports` runs the stages in order — extraction, host-port
 * normalization, gap resolution, and filtering when a --port value was
 * given — after the compose documents are loaded.
 */
module Handler {
  import opened Wrappers
  import opened Strconv
  import opened ComposeFile
  import opened Extraction
  import opened Normalization
  import opened GapResolution
  import opened Filtering

  /** How a run ends: the ports it lists, the error it returns, or a run-time panic. */
  datatype Outcome = Listed(ports: seq<int>) | Failed(error: PortsError) | Panicked

  /** Whether a candidate is wanted: any candidate without a --port value, else one the pattern matches. */
  predicate Wanted(port: string, c: int) {
    port == "" || MatchString(Pattern(port), FormatInt(c))
  }

  /**
   * The outcome `Ports` gives once extraction has produced `entries`: a panic
   * when `hostPorts` panics, and otherwise, ascending, every wanted port just
   * past a run of the ports left in its map.
   */
  ghost predicate ResolvedFrom(port: string, entries: seq<string>, r: Outcome) {
    match HostFold(entries, Live({}), None)
    case Panic => r == Panicked
    case Updated(m, _) =>
      r.Listed? && StrictlyAscending(r.ports)
      && forall c :: c in r.ports <==> IsNextPort(KeysOf(m), c) && Wanted(port, c)
  }

  /** Every entry of every service of every document has a host field that parses, if it has one. */
  ghost predicate AllWellFormed<S>(docs: seq<Compose<S>>, show: S -> string) {
    forall e :: e in Declared(docs, show) ==> WellFormedEntry(e)
  }

  /**
   * `Handler.Ports` after the documents are loaded: a `ports` field that is
   * not a list fails the run with "no ports"; otherwise the entries, in the
   * order `occupiedPortRanges` visited them, determine the outcome; the error
   * `hostPorts` returns is dropped. With every host field parsing, the run
   * lists exactly the wanted ports just past a run of occupied ports.
   */
  method Ports<S>(port: string, composeFilesContent: seq<Compose<S>>, show: S -> string) returns (r: Outcome)
    ensures r.Failed? <==> Malformed(composeFilesContent)
    ensures r.Failed? ==> r.error == NoPorts
    ensures !Malformed(composeFilesContent) ==>
      exists entries :: IsVisit(composeFilesContent, show, entries) && ResolvedFrom(port, entries, r)
    ensures !Malformed(composeFilesContent) && AllWellFormed(composeFilesContent, show) ==>
      r.Listed? && StrictlyAscending(r.ports)
      && forall c :: c in r.ports <==> IsNextPort(OccupiedBy(Declared(composeFilesContent, show)), c) && Wanted(port, c)
  {
    var occupied := OccupiedPortRanges(composeFilesContent, show);
    if occupied.Failure? {
      return Failed(occupied.error);
    }
    var occupiedPortRanges := occupied.value;
    var hostPorts := HostPorts(occupiedPortRanges, None);
    WellFormedHostPorts(composeFilesContent, show, occupiedPortRanges);
    if hostPorts.Panic? {
      assert ResolvedFrom(port, occupiedPortRanges, Panicked);
      return Panicked;
    }
    var nextPorts := NextAvailablePorts(KeysOf(hostPorts.hostPorts));
    if port == "" {
      r := Listed(nextPorts);
    } else {
      var filteredPorts := FilterPorts(port, nextPorts);
      FilteredWanted(port, nextPorts);
      r := Listed(filteredPorts);
    }
    assert ResolvedFrom(port, occupiedPortRanges, r);
  }

  /**
   * A single service with `ports: ["abc:80", "8080:80"]`: the list is visited
   * in order, "abc" leaves a nil map and 8080 is then written into it, so every
   * outcome `Ports` allows is a panic.
   */
  lemma BadThenGoodPanics(port: string, r: Outcome)
    requires exists entries ::
      && ResolvedFrom(port, entries, r)
      && IsVisit([Compose(map["web" := map["ports" := List(["abc:80", "8080:80"])]])], (s: string) => s, entries)
    ensures r == Panicked
  {
    var settings := map["ports" := List(["abc:80", "8080:80"])];
    var show := (s: string) => s;
    var entries :| ResolvedFrom(port, entries, r) && IsVisit([Compose(map["web" := settings])], show, entries);
    SingleServiceVisit("web", settings, show, entries);
    assert entries == [] + ["abc:80"] + ["8080:80"];
    BadEntryExample();
    GoodEntryExample();
    FailureThenWritePanics([], "abc:80", ["8080:80"], None, 0);
  }

  /** With every host field parsing, `hostPorts` over the extracted entries leaves the ports they occupy. */
  lemma WellFormedHostPorts<S>(docs: seq<Compose<S>>, show: S -> string, entries: seq<string>)
    requires multiset(entries) == Declared(docs, show)
    ensures AllWellFormed(docs, show) ==>
      HostFold(entries, Live({}), None).Updated?
      && KeysOf(HostFold(entries, Live({}), None).hostPorts) == OccupiedBy(Declared(docs, show))
  {
    if AllWellFormed(docs, show) {
      assert forall e :: e in entries ==> e in multiset(entries);
      WellFormedFold(entries, {}, None);
      assert {} + OccupiedBy(multiset(entries)) == OccupiedBy(multiset(entries));
    }
  }

  /** Filtering by a non-empty --port value keeps, in order, exactly the wanted candidates. */
  lemma FilteredWanted(port: string, nextPorts: seq<int>)
    requires port != "" && StrictlyAscending(nextPorts)
    ensures StrictlyAscending(Kept(nextPorts, Pattern(port)))
    ensures forall c :: c in Kept(nextPorts, Pattern(port)) <==> c in nextPorts && Wanted(port, c)
  {
    KeptAscending(nextPorts, Pattern(port));
    forall c ensures c in Kept(nextPorts, Pattern(port)) <==> c in nextPorts && Wanted(port, c) {
      KeptMembers(nextPorts, Pattern(port), c);
    }
  }
}
