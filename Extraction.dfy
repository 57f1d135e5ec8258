/**
 * Extraction: `occupiedPortRanges` flattens the `ports` list of every
 * service of every document into text. The services of a document are
 * visited in Go's unspecified map order: the result is specified as a visit
 * (documents in order, each service's list in order, services in some order),
 * and as the multiset of all declared entries.
 */
module Extraction {
  import opened Wrappers
  import opened ComposeFile

  /** Whether one service's `ports` field is present but not a list. */
  predicate BadPorts<S>(settings: Settings<S>) {
    "ports" in settings && settings["ports"].Other?
  }

  /** The text of every element of one service's `ports` list (none when the field is absent). */
  function ServiceEntries<S>(settings: Settings<S>, show: S -> string): seq<string> {
    if "ports" in settings && settings["ports"].List? then
      var items := settings["ports"].items;
      seq(|items|, i requires 0 <= i < |items| => show(items[i]))
    else []
  }

  /** A service without a `ports` field contributes no entry. */
  lemma NoPortsField<S>(settings: Settings<S>, show: S -> string)
    requires "ports" !in settings
    ensures ServiceEntries(settings, show) == [] && !BadPorts(settings)
  {
  }

  /** The entries of a set of services, taken in some order. */
  ghost function ServicesEntries<S>(services: map<string, Settings<S>>, show: S -> string): multiset<string>
    decreases |services|
  {
    if services == map[] then multiset{}
    else
      var name :| name in services;
      multiset(ServiceEntries(services[name], show)) + ServicesEntries(services - {name}, show)
  }

  /** Every entry of every service of every document. */
  ghost function Declared<S>(docs: seq<Compose<S>>, show: S -> string): multiset<string>
    decreases |docs|
  {
    if docs == [] then multiset{}
    else Declared(docs[..|docs| - 1], show) + ServicesEntries(docs[|docs| - 1].services, show)
  }

  /** Whether every service's `ports` field, where present, is a list. */
  ghost predicate ListsOnly<S>(services: map<string, Settings<S>>) {
    forall name :: name in services ==> !BadPorts(services[name])
  }

  /** Whether some service of some document has a `ports` field that is not a list. */
  ghost predicate Malformed<S>(docs: seq<Compose<S>>) {
    exists i :: 0 <= i < |docs| && !ListsOnly(docs[i].services)
  }

  /** Whether `order` names each of `names` exactly once: an order to visit them in. */
  ghost predicate IsOrder(order: seq<string>, names: set<string>) {
    (forall i :: 0 <= i < |order| ==> order[i] in names) && multiset(order) == multiset(names)
  }

  /** The entries of the services `order` names, each service's list as one block, in that order. */
  function Visited<S>(services: map<string, Settings<S>>, order: seq<string>, show: S -> string): seq<string>
    requires forall i :: 0 <= i < |order| ==> order[i] in services
    decreases |order|
  {
    if order == [] then []
    else Visited(services, order[..|order| - 1], show) + ServiceEntries(services[order[|order| - 1]], show)
  }

  /** Whether `orders` gives, for each document, an order to visit its services in. */
  ghost predicate VisitOrders<S>(docs: seq<Compose<S>>, orders: seq<seq<string>>) {
    |orders| == |docs| && forall i :: 0 <= i < |docs| ==> IsOrder(orders[i], docs[i].services.Keys)
  }

  /** The entries of all documents, in slice order, each document's services visited in the order given. */
  ghost function VisitedAll<S>(docs: seq<Compose<S>>, orders: seq<seq<string>>, show: S -> string): seq<string>
    requires VisitOrders(docs, orders)
    decreases |docs|
  {
    if docs == [] then []
    else
      var n := |docs| - 1;
      assert VisitOrders(docs[..n], orders[..n]) by {
        forall i | 0 <= i < n ensures IsOrder(orders[..n][i], docs[..n][i].services.Keys) {
          assert orders[..n][i] == orders[i] && docs[..n][i] == docs[i];
        }
      }
      VisitedAll(docs[..n], orders[..n], show) + Visited(docs[n].services, orders[n], show)
  }

  /**
   * Whether `entries` is what `occupiedPortRanges` can produce: the documents
   * in slice order, each `ports` list in list order, and the services of each
   * document in some order.
   */
  ghost predicate IsVisit<S>(docs: seq<Compose<S>>, show: S -> string, entries: seq<string>) {
    exists orders :: VisitOrders(docs, orders) && entries == VisitedAll(docs, orders, show)
  }

  /** The order services are taken in does not matter: any one of them can go first. */
  lemma {:induction false} ServicesEntriesAnyFirst<S>(services: map<string, Settings<S>>, show: S -> string, name: string)
    requires name in services
    ensures ServicesEntries(services, show)
         == multiset(ServiceEntries(services[name], show)) + ServicesEntries(services - {name}, show)
    decreases |services|
  {
    var first :| first in services
      && ServicesEntries(services, show)
         == multiset(ServiceEntries(services[first], show)) + ServicesEntries(services - {first}, show);
    if first != name {
      var both := services - {first} - {name};
      assert services - {first} - {name} == services - {name} - {first};
      ServicesEntriesAnyFirst(services - {first}, show, name);
      ServicesEntriesAnyFirst(services - {name}, show, first);
    }
  }

  /** Naming one more service extends an order. */
  lemma OrderExtend(order: seq<string>, names: set<string>, name: string)
    requires IsOrder(order, names) && name !in names
    ensures IsOrder(order + [name], names + {name})
  {
    assert multiset(names + {name}) == multiset(names) + multiset{name};
  }

  /**
   * Regrouping appended blocks. Stated on its own so that the service loop
   * asks the solver for this one step, not for sequence extensionality
   * among all of the loop's other facts.
   */
  lemma ConcatAssociates(a: seq<string>, b: seq<string>, c: seq<string>)
    ensures a + b + c == a + (b + c)
  {
  }

  /** A visit only reads the services it names. */
  lemma {:induction false} VisitedRestrict<S>(services: map<string, Settings<S>>, order: seq<string>, name: string,
                                              show: S -> string)
    requires forall i :: 0 <= i < |order| ==> order[i] in services && order[i] != name
    ensures Visited(services, order, show) == Visited(services - {name}, order, show)
    decreases |order|
  {
    if order != [] {
      VisitedRestrict(services, order[..|order| - 1], name, show);
    }
  }

  /** The last name of an order is not named earlier, and the rest orders the other names. */
  lemma OrderInit(order: seq<string>, names: set<string>)
    requires IsOrder(order, names) && order != []
    ensures var n := order[|order| - 1];
      n in names && n !in order[..|order| - 1] && IsOrder(order[..|order| - 1], names - {n})
  {
    var n := order[|order| - 1];
    var init := order[..|order| - 1];
    assert order == init + [n];
    assert multiset(order) == multiset(init) + multiset{n};
    assert multiset(names) == multiset(names - {n}) + multiset{n};
    forall x ensures multiset(init)[x] == multiset(names - {n})[x] {
      assert (multiset(init) + multiset{n})[x] == (multiset(names - {n}) + multiset{n})[x];
    }
    forall i | 0 <= i < |init| ensures init[i] in names - {n} {
      assert init[i] in multiset(init);
    }
  }

  /** Visiting the services in any order gives each service's entries once. */
  lemma {:induction false} VisitedEntries<S>(services: map<string, Settings<S>>, order: seq<string>, show: S -> string)
    requires IsOrder(order, services.Keys)
    ensures multiset(Visited(services, order, show)) == ServicesEntries(services, show)
    decreases |order|
  {
    if order == [] {
      assert services.Keys == {};
      assert services == map[];
    } else {
      var n := order[|order| - 1];
      var init := order[..|order| - 1];
      OrderInit(order, services.Keys);
      assert (services - {n}).Keys == services.Keys - {n};
      VisitedRestrict(services, init, n, show);
      VisitedEntries(services - {n}, init, show);
      ServicesEntriesAnyFirst(services, show, n);
    }
  }

  /** Visiting one more service extends the order and appends that service's entries as one block. */
  lemma VisitNext<S>(services: map<string, Settings<S>>, remaining: set<string>, order: seq<string>, name: string,
                     show: S -> string)
    requires remaining <= services.Keys && name in remaining
    requires IsOrder(order, services.Keys - remaining)
    ensures IsOrder(order + [name], services.Keys - (remaining - {name}))
    ensures Visited(services, order + [name], show) == Visited(services, order, show) + ServiceEntries(services[name], show)
  {
    OrderExtend(order, services.Keys - remaining, name);
    assert services.Keys - (remaining - {name}) == services.Keys - remaining + {name};
    assert (order + [name])[..|order|] == order;
  }

  /** Visiting one more document appends the visit of its services. */
  lemma VisitDocument<S>(docs: seq<Compose<S>>, c: nat, orders: seq<seq<string>>, order: seq<string>, show: S -> string)
    requires c < |docs| && VisitOrders(docs[..c], orders) && IsOrder(order, docs[c].services.Keys)
    ensures VisitOrders(docs[..c + 1], orders + [order])
    ensures VisitedAll(docs[..c + 1], orders + [order], show)
         == VisitedAll(docs[..c], orders, show) + Visited(docs[c].services, order, show)
  {
    var d := docs[..c + 1];
    var o := orders + [order];
    assert d[..c] == docs[..c] && o[..c] == orders;
    forall i | 0 <= i < c + 1 ensures IsOrder(o[i], d[i].services.Keys) {
      if i < c {
        assert o[i] == orders[i] && d[i] == docs[..c][i];
      }
    }
  }

  /** Any visit of the documents holds every declared entry, each once. */
  lemma {:induction false} VisitDeclared<S>(docs: seq<Compose<S>>, orders: seq<seq<string>>, show: S -> string)
    requires VisitOrders(docs, orders)
    ensures multiset(VisitedAll(docs, orders, show)) == Declared(docs, show)
    decreases |docs|
  {
    if docs != [] {
      var n := |docs| - 1;
      assert VisitOrders(docs[..n], orders[..n]) by {
        forall i | 0 <= i < n ensures IsOrder(orders[..n][i], docs[..n][i].services.Keys) {
          assert orders[..n][i] == orders[i] && docs[..n][i] == docs[i];
        }
      }
      VisitDeclared(docs[..n], orders[..n], show);
      VisitedEntries(docs[n].services, orders[n], show);
    }
  }

  /** An order of a single name is that name alone. */
  lemma SingleOrder(order: seq<string>, name: string)
    requires IsOrder(order, {name})
    ensures order == [name]
  {
    assert |multiset(order)| == 1;
  }

  /**
   * A single document with a single service yields that service's `ports`
   * list in list order: only the order of services is left open.
   */
  lemma SingleServiceVisit<S>(name: string, settings: Settings<S>, show: S -> string, entries: seq<string>)
    requires IsVisit([Compose(map[name := settings])], show, entries)
    ensures entries == ServiceEntries(settings, show)
  {
    var docs := [Compose(map[name := settings])];
    var orders :| VisitOrders(docs, orders) && entries == VisitedAll(docs, orders, show);
    SingleOrder(orders[0], name);
    assert docs[..0] == [] && orders[..0] == [];
    assert VisitedAll(docs, orders, show) == VisitedAll([], [], show) + Visited(docs[0].services, [name], show);
    assert [name][..0] == [];
    assert Visited(docs[0].services, [name], show) == [] + ServiceEntries(settings, show);
  }

  /** Declared and Malformed grow document by document. */
  lemma DeclaredPrefix<S>(docs: seq<Compose<S>>, c: nat, show: S -> string)
    requires c < |docs|
    ensures Declared(docs[..c + 1], show) == Declared(docs[..c], show) + ServicesEntries(docs[c].services, show)
    ensures Malformed(docs[..c + 1]) <==> Malformed(docs[..c]) || !ListsOnly(docs[c].services)
  {
    assert docs[..c + 1][..c] == docs[..c];
    assert docs[..c + 1][c] == docs[c];
    if Malformed(docs[..c + 1]) && !Malformed(docs[..c]) {
      var i :| 0 <= i <= c && !ListsOnly(docs[..c + 1][i].services);
      assert i == c;
    }
  }

  /** A document that is malformed makes every sequence it begins malformed. */
  lemma MalformedExtends<S>(docs: seq<Compose<S>>, c: nat)
    requires c <= |docs| && Malformed(docs[..c])
    ensures Malformed(docs)
  {
    var i :| 0 <= i < c && !ListsOnly(docs[..c][i].services);
    assert docs[..c][i] == docs[i];
  }

  /** The innermost loop of `occupiedPortRanges`: appends the text of every element of one `ports` list. */
  method AppendEntries<S>(occupied: seq<string>, ports: seq<S>, show: S -> string) returns (result: seq<string>)
    ensures result == occupied + seq(|ports|, i requires 0 <= i < |ports| => show(ports[i]))
  {
    ghost var entries := seq(|ports|, i requires 0 <= i < |ports| => show(ports[i]));
    result := occupied;
    for k := 0 to |ports|
      invariant result == occupied + entries[..k]
    {
      assert entries[..k + 1] == entries[..k] + [show(ports[k])];
      result := result + [show(ports[k])];
    }
    assert entries[..|ports|] == entries;
  }

  /**
   * The body of `occupiedPortRanges`'s loop over one document: appends to
   * `occupied` the text of every element of every service's `ports` list,
   * visiting the services in any order; fails with NoPorts when some service's
   * `ports` is not a list.
   */
  method AppendServicePorts<S>(occupied: seq<string>, services: map<string, Settings<S>>, show: S -> string)
    returns (r: Result<seq<string>, PortsError>)
    ensures r.Failure? <==> !ListsOnly(services)
    ensures r.Failure? ==> r.error == NoPorts
    ensures r.Success? ==> multiset(r.value) == multiset(occupied) + ServicesEntries(services, show)
    ensures r.Success? ==>
      exists order :: IsOrder(order, services.Keys) && r.value == occupied + Visited(services, order, show)
  {
    var result := occupied;
    var remaining := services.Keys;
    ghost var order: seq<string> := [];
    assert result == occupied + Visited(services, order, show);
    while remaining != {}
      invariant remaining <= services.Keys
      invariant IsOrder(order, services.Keys - remaining)
      invariant result == occupied + Visited(services, order, show)
      invariant forall name :: name in services && name !in remaining ==> !BadPorts(services[name])
      decreases remaining
    {
      var name :| name in remaining;
      var settings := services[name];
      ghost var before := result;
      if "ports" in settings {
        if settings["ports"].Other? {
          return Failure(NoPorts);
        }
        result := AppendEntries(result, settings["ports"].items, show);
      }
      assert result == before + ServiceEntries(settings, show);
      VisitNext(services, remaining, order, name, show);
      ConcatAssociates(occupied, Visited(services, order, show), ServiceEntries(settings, show));
      order := order + [name];
      remaining := remaining - {name};
    }
    assert services.Keys - remaining == services.Keys;
    VisitedEntries(services, order, show);
    return Success(result);
  }

  /**
   * `occupiedPortRanges`: the text of every element of every service's `ports`
   * list; fails with NoPorts when some service's `ports` is not a list.
   */
  method OccupiedPortRanges<S>(composeFilesContent: seq<Compose<S>>, show: S -> string)
    returns (r: Result<seq<string>, PortsError>)
    ensures r.Failure? <==> Malformed(composeFilesContent)
    ensures r.Failure? ==> r.error == NoPorts
    ensures r.Success? ==> multiset(r.value) == Declared(composeFilesContent, show)
    ensures r.Success? ==> IsVisit(composeFilesContent, show, r.value)
  {
    var occupied: seq<string> := [];
    var c := 0;
    ghost var orders: seq<seq<string>> := [];
    while c < |composeFilesContent|
      invariant c <= |composeFilesContent|
      invariant VisitOrders(composeFilesContent[..c], orders)
      invariant occupied == VisitedAll(composeFilesContent[..c], orders, show)
      invariant multiset(occupied) == Declared(composeFilesContent[..c], show)
      invariant !Malformed(composeFilesContent[..c])
    {
      var appended := AppendServicePorts(occupied, composeFilesContent[c].services, show);
      DeclaredPrefix(composeFilesContent, c, show);
      if appended.Failure? {
        MalformedExtends(composeFilesContent, c + 1);
        return appended;
      }
      ghost var order :| IsOrder(order, composeFilesContent[c].services.Keys)
        && appended.value == occupied + Visited(composeFilesContent[c].services, order, show);
      VisitDocument(composeFilesContent, c, orders, order, show);
      orders := orders + [order];
      occupied := appended.value;
      c := c + 1;
    }
    assert composeFilesContent[..c] == composeFilesContent;
    assert VisitOrders(composeFilesContent, orders) && occupied == VisitedAll(composeFilesContent, orders, show);
    return Success(occupied);
  }
}
