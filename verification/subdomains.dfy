/** Subdomain routing. A pattern such as "api.:user.example.com" is split
    on '.' and reversed, so that it is compared from the top-level domain
    down; a part ":name" captures one label, "*" accepts any non-empty label,
    and any other part must equal the label. The empty label of an apex
    domain is accepted by every literal part and by no capture.
 */
module Subdomains {
  import opened Wrappers
  import opened Text
  import opened Http
  import Routers

  datatype Part = Capture(name: string) | Literal(text: string)

  /** One pattern part: ":x" captures under the name "x". */
  function ParsePart(p: string): (r: Part)
    ensures StartsWith(p, ":") <==> r.Capture?
    ensures r.Capture? ==> p == ":" + r.name
    ensures r.Literal? ==> r.text == p
  {
    if StartsWith(p, ":") then Capture(p[1..]) else Literal(p)
  }

  datatype Holder<T> = Holder(data: T, pattern: seq<Part>)

  /** `Holder::new`: the pattern's labels, last label first. */
  function NewHolder<T>(domain: string, data: T): (h: Holder<T>)
    ensures h.data == data
    ensures |h.pattern| == |Split(domain, '.')|
    ensures forall i :: 0 <= i < |h.pattern| ==>
      h.pattern[i] == ParsePart(Split(domain, '.')[|h.pattern| - 1 - i])
  {
    var labels := Reverse(Split(domain, '.'));
    Holder(data, seq(|labels|, i requires 0 <= i < |labels| => ParsePart(labels[i])))
  }

  /** Whether one pattern part accepts one label. */
  predicate Accepts(p: Part, s: string) {
    if s == "" then p.Literal?
    else p.Capture? || p.text == "*" || p.text == s
  }

  /** The loop of `Holder::compare`, over the remaining parts and labels,
      with the captures so far. */
  function Bind(pattern: seq<Part>, labels: seq<string>, acc: map<string, string>): (r: Option<map<string, string>>)
    requires |pattern| == |labels|
    decreases |labels|
  {
    if |labels| == 0 then Some(acc)
    else if labels[0] == "" then
      (if pattern[0].Capture? then None else Bind(pattern[1..], labels[1..], acc))
    else
      match pattern[0]
      case Capture(n) => Bind(pattern[1..], labels[1..], acc[n := labels[0]])
      case Literal(x) =>
        if x == "*" then Bind(pattern[1..], labels[1..], acc)
        else if labels[0] != x then None
        else Bind(pattern[1..], labels[1..], acc)
  }

  datatype SubMatch<T> = SubMatch(data: T, params: map<string, string>)

  /** `Holder::compare`: a label count different from the pattern's length
      never matches. */
  function Compare<T>(h: Holder<T>, labels: seq<string>): (r: Option<SubMatch<T>>)
    ensures r.Some? ==> r.value.data == h.data
    ensures |labels| != |h.pattern| ==> r.None?
  {
    if |h.pattern| != |labels| then None
    else
      match Bind(h.pattern, labels, map[])
      case None => None
      case Some(ps) => Some(SubMatch(h.data, ps))
  }

  /** Part `i` captures under `name`, and no later part does. */
  predicate LastCapture(pattern: seq<Part>, i: int, name: string) {
    0 <= i < |pattern| && pattern[i] == Capture(name)
    && forall j :: i < j < |pattern| ==> pattern[j] != Capture(name)
  }

  /** The captures after the first label. */
  function NextAcc(p: Part, s: string, acc: map<string, string>): map<string, string> {
    if s != "" && p.Capture? then acc[p.name := s] else acc
  }

  /** One step of `Bind`: the first part either refuses its label or the
      rest is bound with the updated captures. */
  lemma BindStep(pattern: seq<Part>, labels: seq<string>, acc: map<string, string>)
    requires |pattern| == |labels| > 0
    ensures Bind(pattern, labels, acc) ==
      if Accepts(pattern[0], labels[0]) then Bind(pattern[1..], labels[1..], NextAcc(pattern[0], labels[0], acc)) else None
  {
  }

  lemma {:induction false} BindSome(pattern: seq<Part>, labels: seq<string>, acc: map<string, string>)
    requires |pattern| == |labels|
    ensures Bind(pattern, labels, acc).Some? <==> forall i :: 0 <= i < |labels| ==> Accepts(pattern[i], labels[i])
    decreases |labels|
  {
    if |labels| > 0 {
      var p', l' := pattern[1..], labels[1..];
      BindStep(pattern, labels, acc);
      BindSome(p', l', NextAcc(pattern[0], labels[0], acc));
      assert forall i :: 1 <= i < |labels| ==> pattern[i] == p'[i - 1] && labels[i] == l'[i - 1];
    }
  }

  lemma {:induction false} BindKeys(pattern: seq<Part>, labels: seq<string>, acc: map<string, string>)
    requires |pattern| == |labels| && Bind(pattern, labels, acc).Some?
    ensures var r := Bind(pattern, labels, acc).value;
      forall k :: k in r <==> k in acc || exists i :: 0 <= i < |pattern| && pattern[i] == Capture(k)
    decreases |labels|
  {
    if |labels| > 0 {
      var p', l' := pattern[1..], labels[1..];
      var acc' := NextAcc(pattern[0], labels[0], acc);
      BindStep(pattern, labels, acc);
      BindKeys(p', l', acc');
      var r := Bind(pattern, labels, acc).value;
      forall k ensures k in r <==> k in acc || exists i :: 0 <= i < |pattern| && pattern[i] == Capture(k) {
        if exists i :: 0 <= i < |pattern| && pattern[i] == Capture(k) {
          var i :| 0 <= i < |pattern| && pattern[i] == Capture(k);
          if i > 0 { assert p'[i - 1] == Capture(k); }
        }
        if exists i :: 0 <= i < |p'| && p'[i] == Capture(k) {
          var i :| 0 <= i < |p'| && p'[i] == Capture(k);
          assert pattern[i + 1] == Capture(k);
        }
      }
    }
  }

  lemma {:induction false} BindKeeps(pattern: seq<Part>, labels: seq<string>, acc: map<string, string>)
    requires |pattern| == |labels| && Bind(pattern, labels, acc).Some?
    ensures var r := Bind(pattern, labels, acc).value;
      forall k :: k in acc && (forall i :: 0 <= i < |pattern| ==> pattern[i] != Capture(k)) ==> k in r && r[k] == acc[k]
    decreases |labels|
  {
    if |labels| > 0 {
      var p', l' := pattern[1..], labels[1..];
      BindStep(pattern, labels, acc);
      BindKeeps(p', l', NextAcc(pattern[0], labels[0], acc));
      assert forall j :: 0 <= j < |p'| ==> p'[j] == pattern[j + 1];
    }
  }

  lemma {:induction false} BindLast(pattern: seq<Part>, labels: seq<string>, acc: map<string, string>)
    requires |pattern| == |labels| && Bind(pattern, labels, acc).Some?
    ensures var r := Bind(pattern, labels, acc).value;
      forall i, k :: LastCapture(pattern, i, k) ==> k in r && r[k] == labels[i]
    decreases |labels|
  {
    if |labels| > 0 {
      var p', l' := pattern[1..], labels[1..];
      var acc' := NextAcc(pattern[0], labels[0], acc);
      BindStep(pattern, labels, acc);
      BindLast(p', l', acc');
      BindKeeps(p', l', acc');
      BindSome(pattern, labels, acc);
      var r := Bind(pattern, labels, acc).value;
      forall i, k | LastCapture(pattern, i, k) ensures k in r && r[k] == labels[i] {
        if i > 0 {
          assert LastCapture(p', i - 1, k);
        } else {
          assert forall j :: 0 <= j < |p'| ==> p'[j] == pattern[j + 1];
          assert Accepts(pattern[0], labels[0]);
          assert labels[0] != "";
          assert k in acc' && acc'[k] == labels[0];
        }
      }
    }
  }

  /** Bind succeeds exactly when every part accepts its label; it then binds
      exactly the capture names, each to the label of its last capture, and
      keeps the earlier captures of names the rest does not capture. */
  lemma BindSpec(pattern: seq<Part>, labels: seq<string>, acc: map<string, string>)
    requires |pattern| == |labels|
    ensures Bind(pattern, labels, acc).Some? <==> forall i :: 0 <= i < |labels| ==> Accepts(pattern[i], labels[i])
    ensures Bind(pattern, labels, acc).Some? ==>
      var r := Bind(pattern, labels, acc).value;
      && (forall k :: k in r <==> k in acc || exists i :: 0 <= i < |pattern| && pattern[i] == Capture(k))
      && (forall i, k :: LastCapture(pattern, i, k) ==> k in r && r[k] == labels[i])
      && (forall k :: k in acc && (forall i :: 0 <= i < |pattern| ==> pattern[i] != Capture(k)) ==> k in r && r[k] == acc[k])
  {
    BindSome(pattern, labels, acc);
    if Bind(pattern, labels, acc).Some? {
      BindKeys(pattern, labels, acc);
      BindLast(pattern, labels, acc);
      BindKeeps(pattern, labels, acc);
    }
  }

  /** `compare` in declarative terms: it matches exactly when the lengths
      agree and every part accepts its label, and the match binds exactly
      the capture names, each to the label at its last capture. */
  lemma CompareSpec<T>(h: Holder<T>, labels: seq<string>)
    ensures Compare(h, labels).Some? <==>
      |labels| == |h.pattern| && forall i :: 0 <= i < |labels| ==> Accepts(h.pattern[i], labels[i])
    ensures Compare(h, labels).Some? ==>
      var ps := Compare(h, labels).value.params;
      && (forall k :: k in ps <==> exists i :: 0 <= i < |h.pattern| && h.pattern[i] == Capture(k))
      && (forall i, k :: LastCapture(h.pattern, i, k) ==> k in ps && ps[k] == labels[i])
  {
    if |labels| == |h.pattern| {
      BindSpec(h.pattern, labels, map[]);
    }
  }

  /** An apex domain (one empty label) matches a one-part pattern exactly
      when that part is a literal. */
  lemma ApexMatchesLiterals<T>(h: Holder<T>)
    requires |h.pattern| == 1
    ensures Compare(h, [""]).Some? <==> h.pattern[0].Literal?
  {
    CompareSpec(h, [""]);
  }

  // ---------------------------------------------------------------------------
  // src/subdomain_router/router.rs

  type SubdomainRouter<T> = map<string, Holder<T>>

  /** `SubdomainRouter::add`: the first holder for a pattern stays; the
      data returned is the stored one. */
  function AddSubdomain<T>(r: SubdomainRouter<T>, subdomain: string, element: T): (res: (SubdomainRouter<T>, T))
    ensures subdomain in res.0 && res.1 == res.0[subdomain].data
    ensures subdomain in r ==> res.0 == r
    ensures subdomain !in r ==> res.0 == r[subdomain := NewHolder(subdomain, element)] && res.1 == element
  {
    if subdomain in r then (r, r[subdomain].data)
    else (r[subdomain := NewHolder(subdomain, element)], element)
  }

  /** A repeated `add` keeps the first registration. */
  lemma AddFirstWins<T>(r: SubdomainRouter<T>, subdomain: string, a: T, b: T)
    ensures var (r1, _) := AddSubdomain(r, subdomain, a);
            var (r2, d) := AddSubdomain(r1, subdomain, b);
      r2 == r1 && d == r1[subdomain].data
  {
  }

  /** The labels of a request's domain, last label first. */
  function Labels(domain: string): (ls: seq<string>)
    ensures |ls| == |Split(domain, '.')|
  {
    Reverse(Split(domain, '.'))
  }

  /** `recognize`: the first holder, in the map's iteration order `order`,
      whose compare succeeds. The iteration order is not determined by the
      source, so it is a parameter listing the patterns. */
  function Recognize<T>(r: SubdomainRouter<T>, order: seq<string>, domain: string): (m: Option<SubMatch<T>>)
    requires forall i :: 0 <= i < |order| ==> order[i] in r
    ensures m.Some? ==> exists i :: 0 <= i < |order| && Compare(r[order[i]], Labels(domain)) == m
    ensures m.None? <==> forall i :: 0 <= i < |order| ==> Compare(r[order[i]], Labels(domain)).None?
    decreases |order|
  {
    if |order| == 0 then None
    else
      var c := Compare(r[order[0]], Labels(domain));
      if c.Some? then c
      else
        var m := Recognize(r, order[1..], domain);
        assert forall i :: 1 <= i < |order| ==> order[i] == order[1..][i - 1];
        m
  }

  /** Whatever the iteration order, recognition succeeds exactly when some
      registered pattern matches. */
  lemma RecognizeAnyOrder<T>(r: SubdomainRouter<T>, order: seq<string>, domain: string)
    requires forall i :: 0 <= i < |order| ==> order[i] in r
    requires forall k :: k in r ==> k in order
    ensures Recognize(r, order, domain).Some? <==> exists k :: k in r && Compare(r[k], Labels(domain)).Some?
  {
    if exists k :: k in r && Compare(r[k], Labels(domain)).Some? {
      var k :| k in r && Compare(r[k], Labels(domain)).Some?;
      var i :| 0 <= i < |order| && order[i] == k;
    }
  }

  // ---------------------------------------------------------------------------
  // src/namespace.rs

  /** A namespace maps a domain, compared as a plain string, to the router
      of its subdomain. */
  type Namespace<E> = map<string, Routers.Router<E>>

  /** `Namespace::add`: only when absent; the stored router is returned. */
  function AddNamespace<E>(ns: Namespace<E>, subdomain: string, router: Routers.Router<E>): (res: (Namespace<E>, Routers.Router<E>))
    ensures subdomain in res.0 && res.1 == res.0[subdomain]
    ensures subdomain in ns ==> res.0 == ns
    ensures subdomain !in ns ==> res.0 == ns[subdomain := router]
  {
    if subdomain in ns then (ns, ns[subdomain]) else (ns[subdomain := router], router)
  }

  /** `Namespace::route`: a registered domain delegates to its router; any
      other domain gets the 404 endpoint. */
  function RouteNamespace<E>(ns: Namespace<E>, rec: Routers.Recognizer<E>, domain: string, path: string, m: Method): (s: Routers.Selection<E>)
    ensures domain !in ns ==> s == Routers.Selection(Routers.NotFoundEndpoint, map[])
    ensures domain in ns ==> s == Routers.Route(ns[domain], rec, path, m)
  {
    if domain in ns then Routers.Route(ns[domain], rec, path, m)
    else Routers.Selection(Routers.NotFoundEndpoint, map[])
  }

  /** A fresh namespace answers 404 everywhere; after registering a router
      for a domain, that domain routes exactly like the router. */
  lemma NamespaceRegistered<E>(ns: Namespace<E>, rec: Routers.Recognizer<E>, domain: string, router: Routers.Router<E>,
                               path: string, m: Method)
    requires domain !in ns
    ensures RouteNamespace(map[], rec, domain, path, m).endpoint == Routers.NotFoundEndpoint
    ensures RouteNamespace(AddNamespace(ns, domain, router).0, rec, domain, path, m) == Routers.Route(router, rec, path, m)
  {
  }
}
