/** Payload lists of a status record: ordered, with distinct type URLs, read as maps. */
module Payloads {

  datatype Payload = Payload(typeUrl: string, data: string)

  ghost predicate Distinct(ps: seq<Payload>) {
    forall i, j :: 0 <= i < j < |ps| ==> ps[i].typeUrl != ps[j].typeUrl
  }

  /** The first position of `url`, or the length. */
  function Find(ps: seq<Payload>, url: string): (i: nat)
    ensures i <= |ps|
    ensures i < |ps| ==> ps[i].typeUrl == url
    ensures forall j :: 0 <= j < i ==> ps[j].typeUrl != url
  {
    if ps == [] || ps[0].typeUrl == url then 0 else 1 + Find(ps[1..], url)
  }

  /** What the list means: its first entry for each URL. */
  ghost function AsMap(ps: seq<Payload>): (m: map<string, string>) {
    if ps == [] then map[] else AsMap(ps[1..])[ps[0].typeUrl := ps[0].data]
  }

  method FindPayloadIndexByUrl(ps: seq<Payload>, url: string) returns (found: bool, index: nat)
    ensures found <==> url in AsMap(ps)
    ensures found ==> index < |ps| && index == Find(ps, url) && ps[index] == Payload(url, AsMap(ps)[url])
  {
    MapFind(ps, url);
    found, index := false, 0;
    while index < |ps|
      invariant index <= |ps|
      invariant forall j :: 0 <= j < index ==> ps[j].typeUrl != url
    {
      if ps[index].typeUrl == url {
        found := true;
        return;
      }
      index := index + 1;
    }
  }

  lemma {:induction false} MapFind(ps: seq<Payload>, url: string)
    ensures Find(ps, url) < |ps| <==> url in AsMap(ps)
    ensures url in AsMap(ps) ==> AsMap(ps)[url] == ps[Find(ps, url)].data
  {
    if ps != [] {
      MapFind(ps[1..], url);
    }
  }

  /** Replaces the data of `url` in place, or appends it. */
  function Set(ps: seq<Payload>, url: string, data: string): seq<Payload> {
    var i := Find(ps, url);
    if i < |ps| then ps[i := Payload(url, data)] else ps + [Payload(url, data)]
  }

  function Erase(ps: seq<Payload>, url: string): seq<Payload> {
    var i := Find(ps, url);
    if i < |ps| then ps[..i] + ps[i + 1..] else ps
  }

  lemma DistinctFind(ps: seq<Payload>, i: nat)
    requires Distinct(ps) && i < |ps|
    ensures Find(ps, ps[i].typeUrl) == i
  {
  }

  /** Two distinct lists with the same entries mean the same. */
  lemma MapEqual(ps: seq<Payload>, m: map<string, string>)
    requires forall url :: url in m <==> Find(ps, url) < |ps|
    requires forall url :: url in m ==> Find(ps, url) < |ps| && ps[Find(ps, url)].data == m[url]
    ensures AsMap(ps) == m
  {
    hide AsMap, Find;
    forall url ensures url in m <==> url in AsMap(ps) {
      MapFind(ps, url);
    }
    forall url | url in m ensures m[url] == AsMap(ps)[url] {
      MapFind(ps, url);
    }
  }

  lemma SetMeaning(ps: seq<Payload>, url: string, data: string)
    requires Distinct(ps)
    ensures Distinct(Set(ps, url, data)) && Set(ps, url, data) != []
    ensures AsMap(Set(ps, url, data)) == AsMap(ps)[url := data]
  {
    hide AsMap, Find;
    var qs, k := Set(ps, url, data), Find(ps, url);
    var m := AsMap(ps)[url := data];
    forall u ensures u in m <==> Find(qs, u) < |qs|
      ensures u in m ==> Find(qs, u) < |qs| && qs[Find(qs, u)].data == m[u]
    {
      MapFind(ps, u);
      var i := Find(ps, u);
      if u == url {
        DistinctFind(qs, k);
      } else if i < |ps| {
        DistinctFind(qs, i);
      } else {
        assert forall j :: 0 <= j < |qs| ==> qs[j].typeUrl != u;
      }
    }
    MapEqual(qs, m);
  }

  lemma EraseMeaning(ps: seq<Payload>, url: string)
    requires Distinct(ps)
    ensures Distinct(Erase(ps, url))
    ensures AsMap(Erase(ps, url)) == AsMap(ps) - {url}
  {
    hide AsMap, Find;
    var qs, k := Erase(ps, url), Find(ps, url);
    var m := AsMap(ps) - {url};
    forall u ensures u in m <==> Find(qs, u) < |qs|
      ensures u in m ==> Find(qs, u) < |qs| && qs[Find(qs, u)].data == m[u]
    {
      MapFind(ps, u);
      var i := Find(ps, u);
      if u != url && i < |ps| {
        DistinctFind(qs, if i < k then i else i - 1);
      } else {
        assert forall j :: 0 <= j < |qs| ==> qs[j].typeUrl != u;
      }
    }
    MapEqual(qs, m);
  }

  // ------------------------------------------------------------------------
  // Equality
  // ------------------------------------------------------------------------

  lemma {:induction false} MapSize(ps: seq<Payload>)
    requires Distinct(ps)
    ensures |AsMap(ps)| == |ps|
  {
    if ps != [] {
      MapSize(ps[1..]);
      MapFind(ps[1..], ps[0].typeUrl);
    }
  }

  lemma SubsetSize(a: set<string>, b: set<string>)
    requires a <= b
    ensures |a| <= |b| && (|a| == |b| ==> a == b)
    decreases a
  {
    if a != {} {
      var x :| x in a;
      SubsetSize(a - {x}, b - {x});
    }
  }

  ghost predicate Occurs(p: Payload, m: map<string, string>) {
    p.typeUrl in m && m[p.typeUrl] == p.data
  }

  /** Every entry of `xs` occurs in `ys`. */
  ghost predicate Within(xs: seq<Payload>, ys: seq<Payload>) {
    forall i :: 0 <= i < |xs| ==> Occurs(xs[i], AsMap(ys))
  }

  /** If the longer list lies within the shorter one they are equal as maps; a
      longer list with one entry more cannot. */
  lemma WithinIsEqual(xs: seq<Payload>, ys: seq<Payload>)
    requires Distinct(xs) && Distinct(ys) && |ys| <= |xs|
    ensures Within(xs, ys) <==> AsMap(xs) == AsMap(ys)
  {
    MapSize(xs);
    MapSize(ys);
    var a, b := AsMap(xs), AsMap(ys);
    forall i | 0 <= i < |xs| ensures Occurs(xs[i], a) {
      DistinctFind(xs, i);
      MapFind(xs, xs[i].typeUrl);
    }
    if Within(xs, ys) {
      forall u | u in a ensures u in b && b[u] == a[u] {
        MapFind(xs, u);
        var i := Find(xs, u);
        assert Occurs(xs[i], b);
      }
      assert a.Keys <= b.Keys;
      SubsetSize(a.Keys, b.Keys);
      assert |a.Keys| == |a| && |b.Keys| == |b|;
    }
  }

  /** The comparison of payload lists regardless of order. */
  method SamePayloads(xs: seq<Payload>, ys: seq<Payload>) returns (same: bool)
    requires Distinct(xs) && Distinct(ys)
    ensures same <==> AsMap(xs) == AsMap(ys)
  {
    hide AsMap, Distinct;
    var larger, smaller := xs, ys;
    if |larger| < |smaller| {
      larger, smaller := smaller, larger;
    }
    WithinIsEqual(larger, smaller);
    MapSize(xs);
    MapSize(ys);
    if |larger| - |smaller| > 1 {
      return false;
    }
    var i := 0;
    while i < |larger|
      invariant 0 <= i <= |larger|
      invariant forall k :: 0 <= k < i ==> Occurs(larger[k], AsMap(smaller))
    {
      var found, j := FindPayloadIndexByUrl(smaller, larger[i].typeUrl);
      if !found || larger[i].data != smaller[j].data {
        assert !Occurs(larger[i], AsMap(smaller));
        return false;
      }
      i := i + 1;
    }
    return true;
  }
}
