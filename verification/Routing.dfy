/** structure/routing.go: the routing table as a list of backends with one entry per address. */
module Routing {
  import opened Wrappers
  import opened GoValues

  datatype Address = Address(ip: string, port: string)

  /** The handler does not take part in the JSON encoding. */
  datatype Endpoint = Endpoint(path: string, inner: bool, userAuthRequired: bool, extra: map<string, Go>, handler: nat)

  datatype Dependency = Dependency(name: string, required: bool)

  datatype Backend = Backend(
    moduleName: string, version: string, libVersion: string,
    endpoints: seq<Endpoint>, requiredModules: seq<Dependency>, address: Address)

  /** The JSON text of a list of endpoints; None when it cannot be encoded. */
  type Encoder = seq<Endpoint> -> Option<string>

  predicate IsPathsEqual(encode: Encoder, b: Backend, paths: seq<Endpoint>) {
    encode(paths).Some? && encode(b.endpoints) == encode(paths)
  }

  function Addresses(entries: seq<Backend>): seq<Address> {
    seq(|entries|, i requires 0 <= i < |entries| => entries[i].address)
  }

  function Replaced(encode: Encoder, e: Backend, d: Backend): Backend {
    if e.address == d.address && !IsPathsEqual(encode, e, d.endpoints) then d else e
  }

  /** What a declaration does to any table, also to one that lists an address twice. */
  function Updated(encode: Encoder, entries: seq<Backend>, d: Backend): seq<Backend> {
    seq(|entries|, i requires 0 <= i < |entries| => Replaced(encode, entries[i], d)) +
    (if d.address in Addresses(entries) then [] else [d])
  }

  /** `entries` already says everything that `d` says. */
  predicate UpToDate(encode: Encoder, entries: seq<Backend>, d: Backend) {
    && d.address in Addresses(entries)
    && forall i :: 0 <= i < |entries| && entries[i].address == d.address ==>
         IsPathsEqual(encode, entries[i], d.endpoints)
  }

  class RoutingConfig {
    var entries: seq<Backend>

    constructor (entries: seq<Backend>)
      ensures this.entries == entries
    {
      this.entries := entries;
    }

    method AddAddressOrUpdate(encode: Encoder, d: Backend) returns (changed: bool)
      modifies this
      ensures entries == Updated(encode, old(entries), d)
      ensures changed <==> !UpToDate(encode, old(entries), d)
    {
      hide IsPathsEqual;
      var found := false;
      changed := false;
      ghost var before := entries;
      for i := 0 to |entries|
        invariant |entries| == |before|
        invariant forall k :: i <= k < |before| ==> entries[k] == before[k]
        invariant forall k :: 0 <= k < i ==> entries[k] == Replaced(encode, before[k], d)
        invariant found <==> d.address in Addresses(before)[..i]
        invariant changed <==>
          exists k :: 0 <= k < i && before[k].address == d.address && !IsPathsEqual(encode, before[k], d.endpoints)
      {
        assert Addresses(before)[..i + 1] == Addresses(before)[..i] + [before[i].address];
        var v := entries[i];
        if v.address == d.address {
          if !IsPathsEqual(encode, v, d.endpoints) {
            entries := entries[i := d];
            changed := true;
          }
          found := true;
        }
      }
      assert Addresses(before)[..|before|] == Addresses(before);
      if !found {
        entries := entries + [d];
        changed := true;
      }
    }
  }

  /** Entry by entry: an entry for another address stays, and so does one whose endpoints encode to the same
      text as those declared; every other one becomes the declaration, which is appended if its address was
      not there. */
  lemma UpdatedExactly(encode: Encoder, entries: seq<Backend>, d: Backend)
    ensures var updated := Updated(encode, entries, d);
      && |updated| == |entries| + (if exists e :: e in entries && e.address == d.address then 0 else 1)
      && (|updated| > |entries| ==> updated[|entries|] == d)
      && forall i :: 0 <= i < |entries| ==>
           var same := encode(d.endpoints).Some? && encode(entries[i].endpoints) == encode(d.endpoints);
           updated[i] == if entries[i].address == d.address && !same then d else entries[i]
  {
    if d.address in Addresses(entries) {
      var i :| 0 <= i < |entries| && Addresses(entries)[i] == d.address;
      assert entries[i] in entries && entries[i].address == d.address;
    }
    if e :| e in entries && e.address == d.address {
      var i :| 0 <= i < |entries| && entries[i] == e;
      assert Addresses(entries)[i] == d.address;
    }
  }

  /** Nothing is reported as changed exactly when the address is there and all its entries encode alike. */
  lemma UpToDateExactly(encode: Encoder, entries: seq<Backend>, d: Backend)
    ensures UpToDate(encode, entries, d) <==>
      && encode(d.endpoints).Some? && (exists e :: e in entries && e.address == d.address)
      && forall e :: e in entries && e.address == d.address ==> encode(e.endpoints) == encode(d.endpoints)
  {
    if e :| e in entries && e.address == d.address {
      var i :| 0 <= i < |entries| && entries[i] == e;
      assert Addresses(entries)[i] == d.address;
    }
    if d.address in Addresses(entries) {
      var i :| 0 <= i < |entries| && Addresses(entries)[i] == d.address;
      assert entries[i] in entries;
    }
  }

  // ---------------------------------------------------------------- a table built by declarations

  /** The table after a sequence of declarations, starting from an empty one. */
  function Table(encode: Encoder, history: seq<Backend>): seq<Backend> {
    if history == [] then [] else Updated(encode, Table(encode, history[..|history| - 1]), history[|history| - 1])
  }

  /** The declared addresses in the order in which they were first declared. */
  function FirstDeclared(history: seq<Backend>): seq<Address> {
    if history == [] then [] else WithAddress(FirstDeclared(history[..|history| - 1]), history[|history| - 1].address)
  }

  function WithAddress(addresses: seq<Address>, a: Address): seq<Address> {
    if a in addresses then addresses else addresses + [a]
  }

  /** The encoded endpoints of the latest declaration for each address. */
  function LatestPaths(encode: Encoder, history: seq<Backend>): map<Address, Option<string>> {
    if history == [] then map[]
    else
      var d := history[|history| - 1];
      LatestPaths(encode, history[..|history| - 1])[d.address := encode(d.endpoints)]
  }

  predicate Distinct<T(==)>(xs: seq<T>) {
    forall i, j :: 0 <= i < j < |xs| ==> xs[i] != xs[j]
  }

  /** The endpoints of every entry encode to what `latest` has for its address. */
  predicate Reflects(encode: Encoder, entries: seq<Backend>, latest: map<Address, Option<string>>) {
    && (forall i :: 0 <= i < |entries| ==>
         entries[i].address in latest && encode(entries[i].endpoints) == latest[entries[i].address])
    && (forall a :: a in latest ==> a in Addresses(entries))
  }

  /** One entry per declared address, in first-declared order, with the endpoints last declared for it. */
  lemma {:induction false} TableIsLatest(encode: Encoder, history: seq<Backend>)
    ensures Addresses(Table(encode, history)) == FirstDeclared(history) && Distinct(FirstDeclared(history))
    ensures Reflects(encode, Table(encode, history), LatestPaths(encode, history))
    ensures forall e :: e in Table(encode, history) ==> e in history
  {
    hide Updated, Distinct, Reflects, WithAddress;
    if history == [] {
      EmptyTable(encode);
    } else {
      var front, d := history[..|history| - 1], history[|history| - 1];
      TableIsLatest(encode, front);
      UpdatedAddresses(encode, Table(encode, front), d);
      UpdatedReflects(encode, Table(encode, front), LatestPaths(encode, front), d);
      assert history == front + [d];
    }
  }

  lemma EmptyTable(encode: Encoder)
    ensures Addresses([]) == [] && Distinct<Address>([]) && Reflects(encode, [], map[])
  {
  }

  lemma UpdatedAddresses(encode: Encoder, entries: seq<Backend>, d: Backend)
    ensures Addresses(Updated(encode, entries, d)) == WithAddress(Addresses(entries), d.address)
    ensures Distinct(Addresses(entries)) ==> Distinct(WithAddress(Addresses(entries), d.address))
    ensures forall e :: e in Updated(encode, entries, d) ==> e in entries + [d]
  {
  }

  lemma UpdatedReflects(encode: Encoder, entries: seq<Backend>, latest: map<Address, Option<string>>, d: Backend)
    requires Reflects(encode, entries, latest)
    ensures Reflects(encode, Updated(encode, entries, d), latest[d.address := encode(d.endpoints)])
  {
    UpdatedAddresses(encode, entries, d);
    var updated := Updated(encode, entries, d);
    forall i | 0 <= i < |updated|
      ensures encode(updated[i].endpoints) == latest[d.address := encode(d.endpoints)][updated[i].address]
    {
      if i < |entries| { assert updated[i] == Replaced(encode, entries[i], d); }
    }
  }

  /** A declaration changes nothing exactly when it leaves the latest encodings as they were and can be encoded. */
  lemma UnchangedExactly(encode: Encoder, history: seq<Backend>, d: Backend)
    ensures UpToDate(encode, Table(encode, history), d) <==>
      LatestPaths(encode, history + [d]) == LatestPaths(encode, history) && encode(d.endpoints).Some?
    ensures Table(encode, history + [d]) == Updated(encode, Table(encode, history), d)
  {
    hide Updated, LatestPaths;
    TableIsLatest(encode, history);
    assert (history + [d])[..|history|] == history;
    LatestMore(encode, history, d);
    SettledExactly(encode, Table(encode, history), LatestPaths(encode, history), d);
  }

  lemma LatestMore(encode: Encoder, history: seq<Backend>, d: Backend)
    ensures LatestPaths(encode, history + [d]) == LatestPaths(encode, history)[d.address := encode(d.endpoints)]
  {
    assert (history + [d])[..|history|] == history;
  }

  lemma SettledExactly(encode: Encoder, entries: seq<Backend>, latest: map<Address, Option<string>>, d: Backend)
    requires Reflects(encode, entries, latest)
    ensures UpToDate(encode, entries, d) <==>
      latest[d.address := encode(d.endpoints)] == latest && encode(d.endpoints).Some?
  {
    var after := latest[d.address := encode(d.endpoints)];
    if d.address in Addresses(entries) {
      var i :| 0 <= i < |entries| && entries[i].address == d.address;
      assert after == latest <==> latest[d.address] == encode(d.endpoints);
    }
  }
}
