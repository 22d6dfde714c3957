/** Collecting hub beacons on the LAN: the Rust collector keeps a map and a list
    of keys, the extension an insertion-ordered map. */
module Discovery {
  import opened Prelude
  import Json
  import JsonReader
  import JsonDecoding

  const MAGIC := "FWBEACON"
  const BEACON_VERSION := 1
  const ROLE_HUB := "hub"

  datatype Beacon = Beacon(magic: string, version: nat, role: string, port: nat,
                           hubId: string, name: string, proto: int, tokenHash: string)

  datatype Hub = Hub(url: string, hubId: string, name: string, proto: int, tokenHash: string, source: string)

  /** What a turn of the receive loop meets. */
  datatype Event = Datagram(source: string, beacon: Option<Beacon>) | Quiet | SocketError

  predicate IsValid(b: Beacon) {
    b.magic == MAGIC && b.version == BEACON_VERSION
  }

  predicate IsHub(b: Beacon) {
    IsValid(b) && b.role == ROLE_HUB && b.port != 0
  }

  /** `want_token_hash`: a beacon without a hash always passes. */
  predicate SameCluster(want: Option<string>, b: Beacon) {
    want.None? || b.tokenHash == "" || b.tokenHash == want.value
  }

  function HubOf(source: string, b: Beacon): Hub {
    Hub("http://" + source + ":" + Json.Digits(b.port), b.hubId, b.name, b.proto, b.tokenHash, source)
  }

  function AcceptedNow(e: Event, want: Option<string>): seq<Hub> {
    match e
    case Datagram(source, Some(b)) => if IsHub(b) && SameCluster(want, b) then [HubOf(source, b)] else []
    case _ => []
  }

  /** The hubs announced by accepted beacons, in arrival order. */
  function Accepted(events: seq<Event>, want: Option<string>): seq<Hub> {
    if events == [] then []
    else
      var n := |events| - 1;
      Accepted(events[..n], want) + AcceptedNow(events[n], want)
  }

  predicate HasUrl(hubs: seq<Hub>, url: string) {
    exists h :: h in hubs && h.url == url
  }

  /** Plain first-occurrence de-duplication by url. */
  function Firsts(hubs: seq<Hub>): seq<Hub> {
    if hubs == [] then []
    else
      var n := |hubs| - 1;
      Firsts(hubs[..n]) + if HasUrl(hubs[..n], hubs[n].url) then [] else [hubs[n]]
  }

  // ---- The Rust collector --------------------------------------------------

  /** The list of keys and the map hold the same hubs, each url once. */
  ghost predicate Index(order: seq<string>, found: map<string, Hub>, hubs: seq<Hub>) {
    && |order| == |hubs|
    && (forall i :: 0 <= i < |hubs| ==> order[i] == hubs[i].url && order[i] in found && found[order[i]] == hubs[i])
    && (forall i, j :: 0 <= i < j < |order| ==> order[i] != order[j])
    && (forall k :: k in found <==> k in order)
  }

  /** `order.into_iter().filter_map(|k| found.remove(&k))`. */
  method DrainInOrder(order: seq<string>, index: map<string, Hub>, ghost hubs: seq<Hub>) returns (result: seq<Hub>)
    requires Index(order, index, hubs)
    ensures result == hubs
  {
    var found := index;
    result := [];
    for i := 0 to |order|
      invariant result == hubs[..i]
      invariant forall j :: i <= j < |order| ==> order[j] in found && found[order[j]] == hubs[j]
    {
      if order[i] in found {
        result := result + [found[order[i]]];
        found := found - {order[i]};
      }
    }
  }

  lemma AcceptedStep(events: seq<Event>, want: Option<string>, i: nat)
    requires i < |events|
    ensures Accepted(events[..i + 1], want) == Accepted(events[..i], want) + AcceptedNow(events[i], want)
  {
    assert events[..i + 1][..i] == events[..i];
  }

  lemma IndexAppend(order: seq<string>, found: map<string, Hub>, hubs: seq<Hub>, hub: Hub)
    requires Index(order, found, hubs) && hub.url !in found
    ensures Index(order + [hub.url], found[hub.url := hub], hubs + [hub])
  {
    var keys, hubs' := order + [hub.url], hubs + [hub];
    forall i | 0 <= i < |hubs|
      ensures keys[i] == hubs'[i].url && keys[i] in found && keys[i] != hub.url && found[keys[i]] == hubs'[i]
    {
      assert keys[i] == order[i] && order[i] in order;
    }
    assert forall k :: k in keys <==> k in order || k == hub.url;
  }

  lemma IndexGrows(order: seq<string>, found: map<string, Hub>, hubs: seq<Hub>, hub: Hub)
    requires Index(order, found, Firsts(hubs))
    ensures hub.url in found ==> Firsts(hubs + [hub]) == Firsts(hubs)
    ensures hub.url !in found ==> Index(order + [hub.url], found[hub.url := hub], Firsts(hubs + [hub]))
  {
    FirstsStep(hubs, hub);
    IndexUrls(order, found, Firsts(hubs), hub.url);
    if hub.url in found {
      assert Firsts(hubs) + [] == Firsts(hubs);
    } else {
      IndexAppend(order, found, Firsts(hubs), hub);
    }
  }

  /** `if !found.contains_key(&url)`: remember the key, insert the hub. */
  method AddFirst(order: seq<string>, found: map<string, Hub>, hub: Hub, ghost before: seq<Hub>)
    returns (keys: seq<string>, hubs: map<string, Hub>)
    requires Index(order, found, Firsts(before))
    ensures Index(keys, hubs, Firsts(before + [hub]))
  {
    IndexGrows(order, found, before, hub);
    keys, hubs := order, found;
    if hub.url !in found {
      keys := keys + [hub.url];
      hubs := hubs[hub.url := hub];
    }
  }

  method DiscoverAddrs(events: seq<Event>, want: Option<string>) returns (r: Option<seq<Hub>>)
    ensures r.None? <==> SocketError in events
    ensures r.Some? ==> r.value == Firsts(Accepted(events, want))
  {
    var found: map<string, Hub> := map[];
    var order: seq<string> := [];
    for i := 0 to |events|
      invariant SocketError !in events[..i]
      invariant Index(order, found, Firsts(Accepted(events[..i], want)))
    {
      AcceptedStep(events, want, i);
      ghost var before := Accepted(events[..i], want);
      assert before + [] == before;
      match events[i] {
        case SocketError => return None;
        case Quiet =>
        case Datagram(source, None) =>
        case Datagram(source, Some(b)) =>
          if IsHub(b) && (want.None? || b.tokenHash == "" || b.tokenHash == want.value) {
            assert AcceptedNow(events[i], want) == [HubOf(source, b)];
            order, found := AddFirst(order, found, HubOf(source, b), before);
          }
      }
    }
    assert events[..|events|] == events;
    var result := DrainInOrder(order, found, Firsts(Accepted(events, want)));
    r := Some(result);
  }

  lemma FirstsStep(hubs: seq<Hub>, hub: Hub)
    ensures Firsts(hubs + [hub]) == Firsts(hubs) + if HasUrl(Firsts(hubs), hub.url) then [] else [hub]
  {
    assert (hubs + [hub])[..|hubs|] == hubs;
    FirstsUrls(hubs, hub.url);
  }

  lemma IndexUrls(order: seq<string>, found: map<string, Hub>, hubs: seq<Hub>, url: string)
    requires Index(order, found, hubs)
    ensures url in found <==> HasUrl(hubs, url)
  {
    if HasUrl(hubs, url) {
      var i :| 0 <= i < |hubs| && hubs[i].url == url;
      assert order[i] in order;
    }
    if url in found {
      var i :| 0 <= i < |order| && order[i] == url;
      assert hubs[i] in hubs;
    }
  }

  lemma {:induction false} FirstsUrls(hubs: seq<Hub>, url: string)
    ensures HasUrl(Firsts(hubs), url) <==> HasUrl(hubs, url)
  {
    if hubs != [] {
      var n := |hubs| - 1;
      FirstsUrls(hubs[..n], url);
      FirstsUrls(hubs[..n], hubs[n].url);
      var tail := if HasUrl(hubs[..n], hubs[n].url) then [] else [hubs[n]];
      assert forall h :: h in hubs <==> h in hubs[..n] || h == hubs[n];
      assert forall h :: h in Firsts(hubs) <==> h in Firsts(hubs[..n]) || h in tail;
      assert HasUrl([hubs[n]], url) <==> hubs[n].url == url;
    }
  }

  lemma {:induction false} FirstIsKept(hubs: seq<Hub>, i: nat)
    requires i < |hubs| && !HasUrl(hubs[..i], hubs[i].url)
    ensures hubs[i] in Firsts(hubs)
    decreases |hubs|
  {
    var n := |hubs| - 1;
    if i < n {
      assert hubs[..n][..i] == hubs[..i];
      FirstIsKept(hubs[..n], i);
    }
  }

  lemma {:induction false} KeptIsFirst(hubs: seq<Hub>, h: Hub) returns (i: nat)
    requires h in Firsts(hubs)
    ensures i < |hubs| && hubs[i] == h && !HasUrl(hubs[..i], h.url)
    decreases |hubs|
  {
    var n := |hubs| - 1;
    if h in Firsts(hubs[..n]) {
      i := KeptIsFirst(hubs[..n], h);
      assert hubs[..n][..i] == hubs[..i];
    } else {
      i := n;
    }
  }

  lemma {:induction false} FirstsDistinct(hubs: seq<Hub>)
    ensures forall i, j :: 0 <= i < j < |Firsts(hubs)| ==> Firsts(hubs)[i].url != Firsts(hubs)[j].url
  {
    if hubs != [] {
      var n := |hubs| - 1;
      FirstsDistinct(hubs[..n]);
      FirstsUrls(hubs[..n], hubs[n].url);
      var front := Firsts(hubs[..n]);
      assert forall i :: 0 <= i < |front| ==> front[i] in front;
    }
  }

  ghost predicate FirstAt(hubs: seq<Hub>, i: nat, h: Hub) {
    i < |hubs| && hubs[i] == h && !HasUrl(hubs[..i], h.url)
  }

  /** What first-occurrence de-duplication means: a hub is returned exactly when
      it was announced with no earlier announcement of its url, and no url is
      returned twice. */
  lemma FirstsAreFirst(hubs: seq<Hub>)
    ensures forall h :: h in Firsts(hubs) <==> exists i :: FirstAt(hubs, i, h)
    ensures forall i, j :: 0 <= i < j < |Firsts(hubs)| ==> Firsts(hubs)[i].url != Firsts(hubs)[j].url
  {
    FirstsDistinct(hubs);
    forall h | h in Firsts(hubs)
      ensures exists i :: FirstAt(hubs, i, h)
    {
      var i := KeptIsFirst(hubs, h);
      assert FirstAt(hubs, i, h);
    }
    forall h, i | FirstAt(hubs, i, h)
      ensures h in Firsts(hubs)
    {
      FirstIsKept(hubs, i);
    }
  }

  // ---- What a listener may rely on -----------------------------------------

  /** The url ends in the port, in decimal, behind its last colon. */
  lemma UrlReads(source: string, b: Beacon)
    ensures var url := HubOf(source, b).url;
      exists digits ::
        && url == "http://" + source + ":" + digits
        && ':' !in digits && JsonReader.ReadNatural(digits) == Some((b.port, ""))
  {
    var digits := Json.Digits(b.port);
    JsonDecoding.DigitsRead(b.port);
    JsonDecoding.NaturalReadBack(b.port, "");
    assert digits + "" == digits;
    assert HubOf(source, b).url == "http://" + source + ":" + digits;
  }

  lemma LastColon(a: string, p: string, b: string, q: string)
    requires a + ":" + p == b + ":" + q && ':' !in p && ':' !in q
    ensures a == b && p == q
  {
    var u, v := a + ":" + p, b + ":" + q;
    assert u[|a|] == ':' && v[|b|] == ':';
    if |a| < |b| {
      assert false;
    } else if |b| < |a| {
      assert false;
    }
    assert u[..|a|] == a && v[..|b|] == b && u[|a| + 1..] == p && v[|b| + 1..] == q;
  }

  /** Two announcements share a url exactly when they share address and port,
      even where the address has colons of its own. */
  lemma UrlNamesEndpoint(s: string, b: Beacon, t: string, c: Beacon)
    ensures HubOf(s, b).url == HubOf(t, c).url <==> s == t && b.port == c.port
  {
    var d, e := Json.Digits(b.port), Json.Digits(c.port);
    JsonDecoding.DigitsRead(b.port);
    JsonDecoding.DigitsRead(c.port);
    if HubOf(s, b).url == HubOf(t, c).url {
      LastColon("http://" + s, d, "http://" + t, e);
      assert ("http://" + s)[7..] == s && ("http://" + t)[7..] == t;
    }
  }

  /** A beacon of this protocol that announces a hub of the wanted cluster, and
      what is remembered of it. */
  ghost predicate Announces(e: Event, want: Option<string>, h: Hub) {
    && e.Datagram? && e.beacon.Some?
    && var b := e.beacon.value;
    && b.magic == "FWBEACON" && b.version == 1 && b.role == "hub" && b.port > 0
    && (b.tokenHash != "" && want.Some? ==> b.tokenHash == want.value)
    && h == HubOf(e.source, b)
    && h.hubId == b.hubId && h.name == b.name && h.proto == b.proto
    && h.tokenHash == b.tokenHash && h.source == e.source
  }

  lemma {:induction false} AcceptedConcat(a: seq<Event>, b: seq<Event>, want: Option<string>)
    ensures Accepted(a + b, want) == Accepted(a, want) + Accepted(b, want)
    decreases |b|
  {
    if b == [] {
      assert a + b == a;
    } else {
      var front, last := b[..|b| - 1], b[|b| - 1];
      AcceptedConcat(a, front, want);
      AcceptedLater(a, front, last, want);
      assert b == front + [last];
    }
  }

  lemma AcceptedLater(a: seq<Event>, front: seq<Event>, last: Event, want: Option<string>)
    requires Accepted(a + front, want) == Accepted(a, want) + Accepted(front, want)
    ensures Accepted(a + (front + [last]), want) == Accepted(a, want) + Accepted(front + [last], want)
  {
    AcceptedSnoc(a + front, last, want);
    AcceptedSnoc(front, last, want);
    AssocSeq(a, front, [last]);
    AssocSeq(Accepted(a, want), Accepted(front, want), AcceptedNow(last, want));
  }

  lemma AcceptedSnoc(events: seq<Event>, e: Event, want: Option<string>)
    ensures Accepted(events + [e], want) == Accepted(events, want) + AcceptedNow(e, want)
  {
    assert (events + [e])[..|events|] == events;
  }

  /** A hub is collected exactly when some datagram announces it. */
  lemma {:induction false} AcceptedExactly(events: seq<Event>, want: Option<string>, h: Hub)
    ensures h in Accepted(events, want) <==> exists e :: e in events && Announces(e, want, h)
  {
    if events != [] {
      var n := |events| - 1;
      AcceptedExactly(events[..n], want, h);
      assert h in AcceptedNow(events[n], want) <==> Announces(events[n], want, h);
      assert forall e :: e in events <==> e in events[..n] || e == events[n];
    }
  }

  lemma {:induction false} FirstsGrow(a: seq<Hub>, b: seq<Hub>)
    ensures Firsts(a) <= Firsts(a + b)
    decreases |b|
  {
    if b == [] {
      assert a + b == a;
    } else {
      var n := |b| - 1;
      FirstsGrow(a, b[..n]);
      assert (a + b)[..|a| + n] == a + b[..n];
    }
  }

  /** Listening longer only adds hubs, behind those found before. */
  lemma ListeningLonger(before: seq<Event>, later: seq<Event>, want: Option<string>)
    ensures Firsts(Accepted(before, want)) <= Firsts(Accepted(before + later, want))
  {
    AcceptedConcat(before, later, want);
    FirstsGrow(Accepted(before, want), Accepted(later, want));
  }

  // ---- The extension's twin ------------------------------------------------

  /** `discoverBeacons` skips its cluster filter for an empty wanted hash. */
  function TwinWant(want: Option<string>): Option<string> {
    if want == Some("") then None else want
  }

  function UntilError(events: seq<Event>): seq<Event> {
    if events == [] || events[0] == SocketError then [] else [events[0]] + UntilError(events[1..])
  }

  lemma {:induction false} UntilErrorAt(events: seq<Event>, i: nat)
    requires i <= |events| && SocketError !in events[..i] && (i < |events| ==> events[i] == SocketError)
    ensures UntilError(events) == events[..i]
  {
    if i > 0 {
      assert events[0] == events[..i][0];
      assert events[1..][..i - 1] == events[..i][1..];
      UntilErrorAt(events[1..], i - 1);
    }
  }

  /** What the twin keeps of a hub. */
  datatype Found = Found(url: string, name: string, proto: int, tokenHash: string)

  function Shared(h: Hub): Found {
    Found(h.url, h.name, h.proto, h.tokenHash)
  }

  function SharedAll(hubs: seq<Hub>): (r: seq<Found>)
    ensures |r| == |hubs|
    ensures forall i :: 0 <= i < |r| ==> r[i] == Shared(hubs[i])
  {
    if hubs == [] then [] else [Shared(hubs[0])] + SharedAll(hubs[1..])
  }

  /** The twin's map next to the crate's: the same keys, the shared fields. */
  ghost predicate Mirrors(found: map<string, Found>, full: map<string, Hub>) {
    found.Keys == full.Keys && forall k :: k in full ==> found[k] == Shared(full[k])
  }

  /** `[...found.values()]`: the map keeps its keys in the order of insertion. */
  method ValuesInOrder(order: seq<string>, found: map<string, Found>) returns (result: seq<Found>)
    requires forall i :: 0 <= i < |order| ==> order[i] in found
    ensures |result| == |order| && forall i :: 0 <= i < |order| ==> result[i] == found[order[i]]
  {
    result := [];
    for i := 0 to |order|
      invariant |result| == i && forall j :: 0 <= j < i ==> result[j] == found[order[j]]
    {
      result := result + [found[order[i]]];
    }
  }

  /** `if (!found.has(url))`: insert what the twin keeps. */
  method AddShared(
      order: seq<string>, found: map<string, Found>, ghost full: map<string, Hub>, hub: Hub, ghost before: seq<Hub>)
    returns (keys: seq<string>, hubs: map<string, Found>, ghost all: map<string, Hub>)
    requires Index(order, full, Firsts(before)) && Mirrors(found, full)
    ensures Index(keys, all, Firsts(before + [hub])) && Mirrors(hubs, all)
  {
    IndexGrows(order, full, before, hub);
    keys, hubs, all := order, found, full;
    if hub.url !in found {
      keys := keys + [hub.url];
      hubs := hubs[hub.url := Shared(hub)];
      all := all[hub.url := hub];
    }
  }

  /** The values in the order of their keys are the hubs, as the twin keeps them. */
  lemma MirroredValues(
      order: seq<string>, found: map<string, Found>, full: map<string, Hub>, hubs: seq<Hub>, result: seq<Found>)
    requires Index(order, full, hubs) && Mirrors(found, full) && |result| == |order|
    requires forall i :: 0 <= i < |order| ==> order[i] in found && result[i] == found[order[i]]
    ensures result == SharedAll(hubs)
  {
  }

  lemma TwinAccepts(b: Beacon, want: Option<string>)
    ensures IsHub(b) && SameCluster(TwinWant(want), b) <==>
      && !(b.magic != MAGIC || b.version != BEACON_VERSION || b.role != ROLE_HUB || b.port == 0)
      && !(want.Some? && want.value != "" && b.tokenHash != "" && b.tokenHash != want.value)
  {
  }

  /** The twin returns what the crate's collector would, in the fields it keeps,
      but for two things: an empty wanted hash wants nothing, and a socket error
      ends the collection with what has been found instead of failing it. The
      parse of a datagram is an input to both. */
  method DiscoverBeacons(events: seq<Event>, want: Option<string>) returns (result: seq<Found>)
    ensures result == SharedAll(Firsts(Accepted(UntilError(events), TwinWant(want))))
    ensures SocketError !in events && want != Some("") ==> result == SharedAll(Firsts(Accepted(events, want)))
  {
    var found: map<string, Found> := map[];
    var order: seq<string> := [];
    ghost var full: map<string, Hub> := map[];
    var i := 0;
    while i < |events| && events[i] != SocketError
      invariant i <= |events| && SocketError !in events[..i]
      invariant Index(order, full, Firsts(Accepted(events[..i], TwinWant(want)))) && Mirrors(found, full)
    {
      AcceptedStep(events, TwinWant(want), i);
      ghost var before := Accepted(events[..i], TwinWant(want));
      assert before + [] == before;
      match events[i] {
        case Datagram(source, Some(b)) =>
          TwinAccepts(b, want);
          if !(b.magic != MAGIC || b.version != BEACON_VERSION || b.role != ROLE_HUB || b.port == 0)
             && !(want.Some? && want.value != "" && b.tokenHash != "" && b.tokenHash != want.value) {
            order, found, full := AddShared(order, found, full, HubOf(source, b), before);
          }
        case _ =>
      }
      i := i + 1;
    }
    UntilErrorAt(events, i);
    result := ValuesInOrder(order, found);
    MirroredValues(order, found, full, Firsts(Accepted(events[..i], TwinWant(want))), result);
    assert SocketError !in events ==> events[..i] == events;
  }
}
