/** The segment trie behind `PathTable` (path_table/src/lib.rs) and its
    line-for-line twin `UrlTable` (src/url_table.rs).

    A node may hold a resource (`accept`), literal children keyed by segment,
    and at most one wildcard child carrying a parameter name. Routing walks the
    non-empty '/'-separated segments of a path, preferring a literal child and
    falling back to the wildcard child, never backtracking.
 */
module PathTable {
  import opened Wrappers
  import opened Text

  datatype Table<R> = Table(accept: Option<R>, next: map<string, Table<R>>, wildcard: Option<Wildcard<R>>)

  datatype Wildcard<R> = Wildcard(name: string, table: Table<R>)

  /** How the wildcard segments of a path were matched: every captured segment
      in path order, and the captures of named wildcards by name. */
  datatype RouteMatch = RouteMatch(vec: seq<string>, named: map<string, string>)

  /** One edge of the trie: a literal child or the wildcard child. A sequence of
      steps names a node, and so stands for the identity of the resource there. */
  datatype Step = Lit(seg: string) | Wild

  /** The conflict that makes `setup_table` panic: a `{name}` segment meets a
      wildcard already registered under another name at the same node. */
  datatype Conflict = Conflict(segment: string, existing: string)

  /** `PathTable::new`: no resource, no children, no wildcard. */
  function Empty<R>(): Table<R>
  {
    Table(None, map[], None)
  }

  /** A new table has exactly one node, its root. */
  lemma EmptyHasOnlyRoot<R>()
    ensures forall pos :: At(Empty<R>(), pos).Some? <==> pos == []
  {
    forall pos: seq<Step> | |pos| > 0 ensures At(Empty<R>(), pos).None? {
      match pos[0]
      case Lit(s) =>
      case Wild =>
    }
  }

  /** The node reached from `t` by following `pos`, if every step exists. */
  function At<R>(t: Table<R>, pos: seq<Step>): Option<Table<R>>
    decreases |pos|
  {
    if |pos| == 0 then Some(t)
    else match pos[0]
      case Lit(s) => if s in t.next then At(t.next[s], pos[1..]) else None
      case Wild => if t.wildcard.Some? then At(t.wildcard.value.table, pos[1..]) else None
  }

  /** A resource is stored at position `pos`. */
  predicate Stored<R>(t: Table<R>, pos: seq<Step>) {
    At(t, pos).Some? && At(t, pos).value.accept.Some?
  }

  lemma AtAppend<R>(t: Table<R>, a: seq<Step>, b: seq<Step>)
    ensures At(t, a + b) == (if At(t, a).Some? then At(At(t, a).value, b) else None)
    decreases |a|
  {
    if |a| > 0 {
      assert (a + b)[1..] == a[1..] + b;
      match a[0]
      case Lit(s) =>
        if s in t.next { AtAppend(t.next[s], a[1..], b); }
      case Wild =>
        if t.wildcard.Some? { AtAppend(t.wildcard.value.table, a[1..], b); }
    } else {
      assert a + b == b;
    }
  }

  // ---------------------------------------------------------------------------
  // route

  /** The loop of `route`: walk the pieces of the split path, skipping empty
      ones, taking the literal child when one matches and otherwise the
      wildcard child, whose segment is captured; stuck means no match. */
  function Descend<R>(t: Table<R>, pieces: seq<string>, vec: seq<string>, named: map<string, string>)
    : Option<(Table<R>, RouteMatch)>
    decreases |pieces|
  {
    if |pieces| == 0 then Some((t, RouteMatch(vec, named)))
    else if pieces[0] == "" then Descend(t, pieces[1..], vec, named)
    else if pieces[0] in t.next then Descend(t.next[pieces[0]], pieces[1..], vec, named)
    else if t.wildcard.Some? then
      var w := t.wildcard.value;
      Descend(w.table, pieces[1..], vec + [pieces[0]],
              if w.name != "" then named[w.name := pieces[0]] else named)
    else None
  }

  /** `route`: the resource at the node the walk reaches, with its captures;
      None when the walk gets stuck or the node holds no resource. */
  function Route<R>(t: Table<R>, path: string): (r: Option<(R, RouteMatch)>)
    ensures r.Some? ==> exists pos :: Stored(t, pos) && At(t, pos).value.accept.value == r.value.0
  {
    match Descend(t, Split(path, '/'), [], map[])
    case None => None
    case Some((node, m)) =>
      if node.accept.Some? then
        DescendReaches(t, Split(path, '/'), [], map[]);
        Some((node.accept.value, m))
      else None
  }

  /** A node reached by the walk exists in the trie. */
  lemma {:induction false} DescendReaches<R>(t: Table<R>, pieces: seq<string>, vec: seq<string>, named: map<string, string>)
    requires Descend(t, pieces, vec, named).Some?
    ensures exists pos :: At(t, pos) == Some(Descend(t, pieces, vec, named).value.0)
    decreases |pieces|
  {
    var n := Descend(t, pieces, vec, named).value.0;
    if |pieces| == 0 {
      assert At(t, []) == Some(n);
    } else if pieces[0] == "" {
      DescendReaches(t, pieces[1..], vec, named);
    } else if pieces[0] in t.next {
      DescendReaches(t.next[pieces[0]], pieces[1..], vec, named);
      var pos :| At(t.next[pieces[0]], pos) == Some(n);
      assert At(t, [Lit(pieces[0])] + pos) == Some(n);
    } else {
      var w := t.wildcard.value;
      var named' := if w.name != "" then named[w.name := pieces[0]] else named;
      DescendReaches(w.table, pieces[1..], vec + [pieces[0]], named');
      var pos :| At(w.table, pos) == Some(n);
      assert At(t, [Wild] + pos) == Some(n);
    }
  }

  /** Empty segments are skipped: the walk over the split path is the walk
      over its non-empty segments. */
  lemma {:induction false} DescendSkipsEmpty<R>(t: Table<R>, pieces: seq<string>, vec: seq<string>, named: map<string, string>)
    ensures Descend(t, pieces, vec, named) == Descend(t, NonEmpty(pieces), vec, named)
    decreases |pieces|
  {
    if |pieces| > 0 {
      if pieces[0] == "" {
        DescendSkipsEmpty(t, pieces[1..], vec, named);
      } else {
        var ne := NonEmpty(pieces);
        assert ne == [pieces[0]] + NonEmpty(pieces[1..]);
        assert ne[1..] == NonEmpty(pieces[1..]);
        if pieces[0] in t.next {
          DescendSkipsEmpty(t.next[pieces[0]], pieces[1..], vec, named);
        } else if t.wildcard.Some? {
          var w := t.wildcard.value;
          DescendSkipsEmpty(w.table, pieces[1..], vec + [pieces[0]],
                            if w.name != "" then named[w.name := pieces[0]] else named);
        }
      }
    }
  }

  /** A path's meaning to the router is its sequence of non-empty segments:
      two paths with the same segments route identically, so "", "/" and "//"
      all address the root and "//foo//" routes like "foo". */
  lemma SameSegmentsSameRoute<R>(t: Table<R>, p: string, q: string)
    requires NonEmpty(Split(p, '/')) == NonEmpty(Split(q, '/'))
    ensures Route(t, p) == Route(t, q)
  {
    DescendSkipsEmpty(t, Split(p, '/'), [], map[]);
    DescendSkipsEmpty(t, Split(q, '/'), [], map[]);
  }

  /** The root is addressed by "", "/" and "//", and only its own resource
      answers there. */
  lemma RootAliases<R>(t: Table<R>)
    ensures Route(t, "") == Route(t, "/") == Route(t, "//")
    ensures Route(t, "").Some? <==> t.accept.Some?
    ensures Route(t, "").Some? ==> Route(t, "") == Some((t.accept.value, RouteMatch([], map[])))
  {
    assert Split("", '/') == [""];
    assert Descend(t, [""], [], map[]) == Some((t, RouteMatch([], map[])));
    assert Split("/", '/') == ["", ""] by {
      assert IndexOf("/", '/') == 0;
      assert "/"[1..] == "";
    }
    assert Split("//", '/') == ["", "", ""] by {
      assert IndexOf("//", '/') == 0;
      assert "//"[1..] == "/";
      assert IndexOf("/", '/') == 0;
    }
  }

  /** Literal precedence: when the next segment names a literal child, the walk
      enters that child and captures nothing, whatever the wildcard holds. */
  lemma LiteralFirst<R>(t: Table<R>, seg: string, rest: seq<string>, vec: seq<string>, named: map<string, string>)
    requires seg != "" && seg in t.next
    ensures Descend(t, [seg] + rest, vec, named) == Descend(t.next[seg], rest, vec, named)
  {
    assert ([seg] + rest)[1..] == rest;
  }

  /** The wildcard child is used only when no literal child matches; it
      captures the segment, and binds it under the wildcard's name only when
      that name is non-empty. */
  lemma WildcardOtherwise<R>(t: Table<R>, seg: string, rest: seq<string>, vec: seq<string>, named: map<string, string>)
    requires seg != "" && seg !in t.next
    ensures t.wildcard.None? ==> Descend(t, [seg] + rest, vec, named) == None
    ensures t.wildcard.Some? ==>
      Descend(t, [seg] + rest, vec, named)
        == Descend(t.wildcard.value.table, rest, vec + [seg],
                   if t.wildcard.value.name == "" then named else named[t.wildcard.value.name := seg])
  {
    assert ([seg] + rest)[1..] == rest;
  }

  // ---------------------------------------------------------------------------
  // The walk as a declarative property

  /** Step `i` of `steps` is the greedy choice for segment `i`: the node reached
      so far exists, and the step is the literal child when the segment names
      one, and otherwise the wildcard child, which must exist. */
  ghost predicate GreedyStep<R>(t: Table<R>, segs: seq<string>, steps: seq<Step>, i: int)
    requires 0 <= i < |segs| == |steps|
  {
    var n := At(t, steps[..i]);
    n.Some? &&
    if segs[i] in n.value.next then steps[i] == Lit(segs[i])
    else n.value.wildcard.Some? && steps[i] == Wild
  }

  /** `steps` is the literal-first, never-backtracking walk over `segs`. */
  ghost predicate Greedy<R>(t: Table<R>, segs: seq<string>, steps: seq<Step>) {
    |steps| == |segs| && forall i :: 0 <= i < |segs| ==> GreedyStep(t, segs, steps, i)
  }

  /** The segments consumed by wildcard steps, in path order. */
  function Captured(segs: seq<string>, steps: seq<Step>): (r: seq<string>)
    requires |segs| == |steps|
    ensures |r| <= |segs|
  {
    if |segs| == 0 then []
    else (if steps[0] == Wild then [segs[0]] else []) + Captured(segs[1..], steps[1..])
  }

  /** The names of the wildcards `steps` passes through, in path order. */
  function WildNames<R>(t: Table<R>, steps: seq<Step>): seq<string>
    decreases |steps|
  {
    if |steps| == 0 then []
    else match steps[0]
      case Lit(seg) => if seg in t.next then WildNames(t.next[seg], steps[1..]) else []
      case Wild =>
        if t.wildcard.Some? then [t.wildcard.value.name] + WildNames(t.wildcard.value.table, steps[1..]) else []
  }

  /** Binds `names[i]` to `values[i]` in order, skipping unnamed (empty)
      names, so a later binding of a name overrides an earlier one. */
  function Bind(named: map<string, string>, names: seq<string>, values: seq<string>): map<string, string>
    requires |names| == |values|
    decreases |names|
  {
    if |names| == 0 then named
    else Bind(if names[0] != "" then named[names[0] := values[0]] else named, names[1..], values[1..])
  }

  lemma GreedyCons<R>(t: Table<R>, seg: string, segs: seq<string>, st: Step, steps: seq<Step>)
    requires |segs| == |steps|
    ensures Greedy(t, [seg] + segs, [st] + steps) <==>
      (if seg in t.next then st == Lit(seg) && Greedy(t.next[seg], segs, steps)
       else t.wildcard.Some? && st == Wild && Greedy(t.wildcard.value.table, segs, steps))
  {
    var S, T := [seg] + segs, [st] + steps;
    var child := if st == Lit(seg) && seg in t.next then Some(t.next[seg])
                 else if st == Wild && t.wildcard.Some? then Some(t.wildcard.value.table)
                 else None;
    forall i | 0 <= i < |segs|
      ensures child.Some? ==> At(t, T[..i + 1]) == At(child.value, steps[..i])
    {
      if child.Some? {
        assert T[..i + 1] == [st] + steps[..i];
        assert ([st] + steps[..i])[1..] == steps[..i];
      }
    }
    if Greedy(t, S, T) {
      assert GreedyStep(t, S, T, 0);
      assert T[..0] == [];
      assert child.Some?;
      forall i | 0 <= i < |segs| ensures GreedyStep(child.value, segs, steps, i) {
        assert GreedyStep(t, S, T, i + 1);
      }
    }
    if child.Some? && Greedy(child.value, segs, steps) && (seg in t.next ==> st == Lit(seg)) {
      assert T[..0] == [];
      forall i | 0 <= i < |S| ensures GreedyStep(t, S, T, i) {
        if i > 0 {
          assert GreedyStep(child.value, segs, steps, i - 1);
        }
      }
    }
  }

  /** The child a greedy walk enters for non-empty segment `seg`, the step it
      takes, and the captures it records (None when it is stuck). */
  function Advance<R>(t: Table<R>, seg: string, vec: seq<string>, named: map<string, string>)
    : Option<(Table<R>, Step, seq<string>, map<string, string>)>
  {
    if seg in t.next then Some((t.next[seg], Lit(seg), vec, named))
    else if t.wildcard.Some? then
      var w := t.wildcard.value;
      Some((w.table, Wild, vec + [seg], if w.name != "" then named[w.name := seg] else named))
    else None
  }

  lemma DescendAdvance<R>(t: Table<R>, segs: seq<string>, vec: seq<string>, named: map<string, string>)
    requires |segs| > 0 && segs[0] != ""
    ensures var a := Advance(t, segs[0], vec, named);
      Descend(t, segs, vec, named) == if a.None? then None else Descend(a.value.0, segs[1..], a.value.2, a.value.3)
  {
  }

  lemma GreedyAdvance<R>(t: Table<R>, segs: seq<string>, steps: seq<Step>)
    requires |segs| > 0 && |steps| == |segs|
    ensures var a := Advance(t, segs[0], [], map[]);
      Greedy(t, segs, steps) <==> a.Some? && steps[0] == a.value.1 && Greedy(a.value.0, segs[1..], steps[1..])
  {
    assert segs == [segs[0]] + segs[1..] && steps == [steps[0]] + steps[1..];
    GreedyCons(t, segs[0], segs[1..], steps[0], steps[1..]);
  }

  /** Over non-empty segments the walk of `route` succeeds iff a greedy
      sequence of steps exists. */
  lemma {:induction false} DescendSomeIffGreedy<R>(t: Table<R>, segs: seq<string>, vec: seq<string>, named: map<string, string>)
    requires forall i :: 0 <= i < |segs| ==> segs[i] != ""
    ensures Descend(t, segs, vec, named).Some? <==> exists steps :: Greedy(t, segs, steps)
    decreases |segs|
  {
    if |segs| == 0 {
      assert Greedy(t, segs, []);
    } else {
      DescendAdvance(t, segs, vec, named);
      var a := Advance(t, segs[0], vec, named);
      var a0 := Advance(t, segs[0], [], map[]);
      forall steps | Greedy(t, segs, steps) ensures a.Some? && Greedy(a.value.0, segs[1..], steps[1..]) {
        GreedyAdvance(t, segs, steps);
      }
      if a.Some? {
        DescendSomeIffGreedy(a.value.0, segs[1..], a.value.2, a.value.3);
        if Descend(t, segs, vec, named).Some? {
          var steps' :| Greedy(a.value.0, segs[1..], steps');
          var steps := [a.value.1] + steps';
          assert steps[1..] == steps';
          GreedyAdvance(t, segs, steps);
        }
      }
    }
  }

  /** A greedy walk ends at the node the walk of `route` reaches, and the walk
      records exactly the wildcard-consumed segments, in path order. */
  lemma {:induction false} DescendFollowsGreedy<R>(t: Table<R>, segs: seq<string>, steps: seq<Step>,
                                                  vec: seq<string>, named: map<string, string>)
    requires forall i :: 0 <= i < |segs| ==> segs[i] != ""
    requires Greedy(t, segs, steps)
    ensures Descend(t, segs, vec, named).Some?
    ensures At(t, steps) == Some(Descend(t, segs, vec, named).value.0)
    ensures Descend(t, segs, vec, named).value.1.vec == vec + Captured(segs, steps)
    decreases |segs|
  {
    if |segs| == 0 {
      assert steps == [];
    } else {
      DescendAdvance(t, segs, vec, named);
      GreedyAdvance(t, segs, steps);
      var a := Advance(t, segs[0], vec, named);
      DescendFollowsGreedy(a.value.0, segs[1..], steps[1..], a.value.2, a.value.3);
      assert steps == [steps[0]] + steps[1..];
      assert At(t, steps) == At(a.value.0, steps[1..]);
      assert Captured(segs, steps) == (if steps[0] == Wild then [segs[0]] else []) + Captured(segs[1..], steps[1..]);
    }
  }

  /** Along a greedy walk, the named captures are the wildcard names passed
      bound to the segments they consumed, a later binding of a name
      overriding an earlier one. */
  lemma {:induction false} DescendNamesGreedy<R>(t: Table<R>, segs: seq<string>, steps: seq<Step>,
                                                vec: seq<string>, named: map<string, string>)
    requires forall i :: 0 <= i < |segs| ==> segs[i] != ""
    requires Greedy(t, segs, steps)
    ensures |WildNames(t, steps)| == |Captured(segs, steps)|
    ensures Descend(t, segs, vec, named).Some?
    ensures Descend(t, segs, vec, named).value.1.named == Bind(named, WildNames(t, steps), Captured(segs, steps))
    decreases |segs|
  {
    if |segs| == 0 {
      assert steps == [];
    } else {
      DescendAdvance(t, segs, vec, named);
      GreedyAdvance(t, segs, steps);
      var a := Advance(t, segs[0], vec, named).value;
      DescendNamesGreedy(a.0, segs[1..], steps[1..], a.2, a.3);
      var N, C := WildNames(a.0, steps[1..]), Captured(segs[1..], steps[1..]);
      if segs[0] in t.next {
        assert steps[0] == Lit(segs[0]);
        assert WildNames(t, steps) == N;
        assert Captured(segs, steps) == C;
      } else {
        var w := t.wildcard.value;
        assert steps[0] == Wild;
        assert WildNames(t, steps) == [w.name] + N;
        assert Captured(segs, steps) == [segs[0]] + C;
        assert ([w.name] + N)[1..] == N && ([segs[0]] + C)[1..] == C;
        assert a.3 == if w.name != "" then named[w.name := segs[0]] else named;
      }
    }
  }

  /** There is at most one greedy walk. */
  lemma {:induction false} GreedyUnique<R>(t: Table<R>, segs: seq<string>, a: seq<Step>, b: seq<Step>)
    requires Greedy(t, segs, a) && Greedy(t, segs, b)
    ensures a == b
    decreases |segs|
  {
    if |segs| > 0 {
      assert a == [a[0]] + a[1..] && b == [b[0]] + b[1..] && segs == [segs[0]] + segs[1..];
      GreedyCons(t, segs[0], segs[1..], a[0], a[1..]);
      GreedyCons(t, segs[0], segs[1..], b[0], b[1..]);
      var child := if segs[0] in t.next then t.next[segs[0]] else t.wildcard.value.table;
      GreedyUnique(child, segs[1..], a[1..], b[1..]);
    }
  }

  /** `route` in declarative terms: it answers iff the greedy walk over the
      path's non-empty segments exists and ends at a stored resource; the
      answer is that resource, with the wildcard-consumed segments in path
      order. A stuck walk is never retried along another branch. */
  lemma RouteIsGreedyWalk<R>(t: Table<R>, path: string)
    ensures Route(t, path).Some? <==>
      exists steps :: Greedy(t, NonEmpty(Split(path, '/')), steps) && Stored(t, steps)
    ensures forall steps :: Greedy(t, NonEmpty(Split(path, '/')), steps) && Stored(t, steps) ==>
      Route(t, path).value.0 == At(t, steps).value.accept.value &&
      Route(t, path).value.1.vec == Captured(NonEmpty(Split(path, '/')), steps) &&
      |WildNames(t, steps)| == |Captured(NonEmpty(Split(path, '/')), steps)| &&
      Route(t, path).value.1.named == Bind(map[], WildNames(t, steps), Captured(NonEmpty(Split(path, '/')), steps))
  {
    var segs := NonEmpty(Split(path, '/'));
    DescendSkipsEmpty(t, Split(path, '/'), [], map[]);
    DescendSomeIffGreedy(t, segs, [], map[]);
    forall steps | Greedy(t, segs, steps)
      ensures Descend(t, segs, [], map[]).Some?
      ensures At(t, steps) == Some(Descend(t, segs, [], map[]).value.0)
      ensures Descend(t, segs, [], map[]).value.1.vec == Captured(segs, steps)
      ensures |WildNames(t, steps)| == |Captured(segs, steps)|
      ensures Descend(t, segs, [], map[]).value.1.named == Bind(map[], WildNames(t, steps), Captured(segs, steps))
    {
      DescendFollowsGreedy(t, segs, steps, [], map[]);
      DescendNamesGreedy(t, segs, steps, [], map[]);
    }
    if Route(t, path).Some? {
      var steps :| Greedy(t, segs, steps);
      assert Stored(t, steps);
    }
  }

  // ---------------------------------------------------------------------------
  // setup_table and setup

  /** A segment of the form `{name}` denotes the wildcard child. */
  predicate IsWildcardSegment(seg: string) {
    |seg| > 0 && seg[0] == '{' && seg[|seg| - 1] == '}'
  }

  function WildcardName(seg: string): string
    requires IsWildcardSegment(seg)
  {
    seg[1..|seg| - 1]
  }

  /** The steps a registration path denotes: empty pieces are skipped, `{name}`
      is the wildcard child and any other piece the literal child. */
  function PatternSteps(pieces: seq<string>): (r: seq<Step>)
    ensures |r| <= |pieces|
  {
    if |pieces| == 0 then []
    else if pieces[0] == "" then PatternSteps(pieces[1..])
    else [if IsWildcardSegment(pieces[0]) then Wild else Lit(pieces[0])] + PatternSteps(pieces[1..])
  }

  /** The resource stored at `pos`, if any. */
  function AcceptAt<R>(t: Table<R>, pos: seq<Step>): Option<R> {
    if At(t, pos).Some? then At(t, pos).value.accept else None
  }

  /** `setup_table` followed, when `dflt` is given, by the default-install step
      of `setup`: walks the pieces creating missing literal children with
      `entry().or_insert_with(new)` and a missing wildcard under the segment's
      name, and fails where a `{name}` segment meets a wildcard registered under
      a different name. */
  function Install<R>(t: Table<R>, pieces: seq<string>, dflt: Option<R>): (r: Result<Table<R>, Conflict>)
    ensures r.Success? ==> At(r.value, PatternSteps(pieces)).Some?
    decreases |pieces|
  {
    if |pieces| == 0 then
      Success(if t.accept.None? && dflt.Some? then t.(accept := dflt) else t)
    else if pieces[0] == "" then Install(t, pieces[1..], dflt)
    else if IsWildcardSegment(pieces[0]) then
      var name := WildcardName(pieces[0]);
      var w := if t.wildcard.None? then Wildcard(name, Empty()) else t.wildcard.value;
      if name != w.name then Failure(Conflict(name, w.name))
      else
        var sub :- Install(w.table, pieces[1..], dflt);
        Success(t.(wildcard := Some(Wildcard(name, sub))))
    else
      var child := if pieces[0] in t.next then t.next[pieces[0]] else Empty();
      var sub :- Install(child, pieces[1..], dflt);
      Success(t.(next := t.next[pieces[0] := sub]))
  }

  /** `setup_table(path)`: the table with every node of `path` present. */
  function SetupTable<R>(t: Table<R>, path: string): (r: Result<Table<R>, Conflict>)
    ensures r.Success? ==> At(r.value, PatternSteps(Split(path, '/'))).Some?
  {
    Install(t, Split(path, '/'), None)
  }

  /** `setup(path)`: sets up the path's node and installs `dflt` there only if
      the node holds no resource; returns the table and the node's resource,
      which is the one already stored when there was one. */
  function Setup<R>(t: Table<R>, path: string, dflt: R): (r: Result<(Table<R>, R), Conflict>)
    ensures r.Success? ==> AcceptAt(r.value.0, PatternSteps(Split(path, '/'))) == Some(r.value.1)
    ensures r.Success? ==> r.value.1 == AcceptAt(t, PatternSteps(Split(path, '/'))).GetOr(dflt)
  {
    var pieces := Split(path, '/');
    var t' :- Install(t, pieces, Some(dflt));
    InstallAccepts(t, pieces, Some(dflt));
    Success((t', AcceptAt(t', PatternSteps(pieces)).value))
  }

  lemma EmptyAcceptsNothing<R>(pos: seq<Step>)
    ensures AcceptAt(Empty<R>(), pos) == None
  {
    if pos == [] {
    } else {
      assert At(Empty<R>(), pos).None?;
    }
  }

  /** Installing touches only the resource at the registered path: that node
      keeps its resource or, when it had none, receives `dflt`; every other
      position holds exactly the resource it held before. */
  lemma {:induction false} InstallAccepts<R>(t: Table<R>, pieces: seq<string>, dflt: Option<R>)
    requires Install(t, pieces, dflt).Success?
    ensures var r := Install(t, pieces, dflt).value;
      AcceptAt(r, PatternSteps(pieces)) == (if AcceptAt(t, PatternSteps(pieces)).Some? then AcceptAt(t, PatternSteps(pieces)) else dflt)
    ensures var r := Install(t, pieces, dflt).value;
      forall pos :: pos != PatternSteps(pieces) ==> AcceptAt(r, pos) == AcceptAt(t, pos)
    decreases |pieces|
  {
    var r := Install(t, pieces, dflt).value;
    var P := PatternSteps(pieces);
    if |pieces| == 0 {
      forall pos | pos != P ensures AcceptAt(r, pos) == AcceptAt(t, pos) {
        assert |pos| > 0;
        assert pos == [pos[0]] + pos[1..];
      }
    } else if pieces[0] == "" {
      InstallAccepts(t, pieces[1..], dflt);
    } else {
      var rest := pieces[1..];
      var st: Step, child: Table<R>;
      if IsWildcardSegment(pieces[0]) {
        st := Wild;
        child := if t.wildcard.None? then Empty() else t.wildcard.value.table;
      } else {
        st := Lit(pieces[0]);
        child := if pieces[0] in t.next then t.next[pieces[0]] else Empty();
      }
      var sub := Install(child, rest, dflt).value;
      InstallAccepts(child, rest, dflt);
      assert P == [st] + PatternSteps(rest);
      assert [st][1..] == [];
      forall s' | s' != st ensures At(r, [s']) == At(t, [s']) {
        assert [s'][1..] == [];
      }
      ReplaceChild(t, r, st, child, sub, PatternSteps(rest), dflt);
    }
  }

  /** Replacing the child at `st` by `sub` changes the resources below `st`
      as `sub` differs from the old child, and nothing elsewhere. */
  lemma ReplaceChild<R>(t: Table<R>, r: Table<R>, st: Step, child: Table<R>, sub: Table<R>, q: seq<Step>, dflt: Option<R>)
    requires r.accept == t.accept
    requires At(r, [st]) == Some(sub)
    requires At(t, [st]) == Some(child) || (At(t, [st]).None? && child == Empty())
    requires forall s' :: s' != st ==> At(r, [s']) == At(t, [s'])
    requires AcceptAt(sub, q) == (if AcceptAt(child, q).Some? then AcceptAt(child, q) else dflt)
    requires forall pos :: pos != q ==> AcceptAt(sub, pos) == AcceptAt(child, pos)
    ensures AcceptAt(r, [st] + q) == (if AcceptAt(t, [st] + q).Some? then AcceptAt(t, [st] + q) else dflt)
    ensures forall pos :: pos != [st] + q ==> AcceptAt(r, pos) == AcceptAt(t, pos)
  {
    forall pos: seq<Step> | |pos| > 0 && pos[0] == st
      ensures AcceptAt(r, pos) == AcceptAt(sub, pos[1..])
      ensures AcceptAt(t, pos) == AcceptAt(child, pos[1..])
    {
      AcceptAtStep(r, pos);
      AcceptAtStep(t, pos);
      if At(t, [st]).None? {
        EmptyAcceptsNothing<R>(pos[1..]);
      }
    }
    assert ([st] + q)[0] == st && ([st] + q)[1..] == q;
    forall pos | pos != [st] + q ensures AcceptAt(r, pos) == AcceptAt(t, pos) {
      if |pos| > 0 && pos[0] == st {
        assert pos[1..] != q by {
          assert pos == [st] + pos[1..];
        }
      } else if |pos| > 0 {
        AcceptAtStep(r, pos);
        AcceptAtStep(t, pos);
      }
    }
  }

  /** The resource at a non-empty position is the one below its first step. */
  lemma AcceptAtStep<R>(t: Table<R>, pos: seq<Step>)
    requires |pos| > 0
    ensures AcceptAt(t, pos) == if At(t, [pos[0]]).Some? then AcceptAt(At(t, [pos[0]]).value, pos[1..]) else None
  {
    assert pos == [pos[0]] + pos[1..];
    AtAppend(t, [pos[0]], pos[1..]);
  }

  /** Registering `pieces` conflicts at piece `i`: it is a `{name}` segment and
      the node the pieces before it lead to already exists with a wildcard of
      a different name. */
  ghost predicate ConflictAt<R>(t: Table<R>, pieces: seq<string>, i: int) {
    0 <= i < |pieces| && IsWildcardSegment(pieces[i]) &&
    var n := At(t, PatternSteps(pieces[..i]));
    n.Some? && n.value.wildcard.Some? && n.value.wildcard.value.name != WildcardName(pieces[i])
  }

  lemma EmptyHasNoConflict<R>(pieces: seq<string>, i: int)
    ensures !ConflictAt(Empty<R>(), pieces, i)
  {
  }

  lemma ConflictShift<R>(t: Table<R>, pieces: seq<string>, child: Option<Table<R>>, i: int)
    requires |pieces| > 0 && 0 <= i
    requires pieces[0] == "" ==> child == Some(t)
    requires pieces[0] != "" && IsWildcardSegment(pieces[0]) ==>
      child == (if t.wildcard.Some? then Some(t.wildcard.value.table) else None)
    requires pieces[0] != "" && !IsWildcardSegment(pieces[0]) ==>
      child == (if pieces[0] in t.next then Some(t.next[pieces[0]]) else None)
    ensures ConflictAt(t, pieces, i + 1) <==> child.Some? && ConflictAt(child.value, pieces[1..], i)
  {
    if i + 1 < |pieces| {
      assert pieces[..i + 1] == [pieces[0]] + pieces[1..][..i];
      assert ([pieces[0]] + pieces[1..][..i])[1..] == pieces[1..][..i];
      var P := PatternSteps(pieces[..i + 1]);
      if pieces[0] != "" {
        assert P == [P[0]] + PatternSteps(pieces[1..][..i]);
      }
    }
  }

  /** `setup_table` panics exactly when some `{name}` segment of the path meets
      an existing wildcard of another name; otherwise it succeeds. */
  lemma {:induction false} InstallFailsIffConflict<R>(t: Table<R>, pieces: seq<string>, dflt: Option<R>)
    ensures Install(t, pieces, dflt).Failure? <==> exists i :: ConflictAt(t, pieces, i)
    decreases |pieces|
  {
    if |pieces| > 0 {
      var rest := pieces[1..];
      assert pieces[..0] == [];
      var child: Option<Table<R>>;
      var next: Table<R>;
      if pieces[0] == "" {
        child := Some(t);
        next := t;
      } else if IsWildcardSegment(pieces[0]) {
        child := if t.wildcard.Some? then Some(t.wildcard.value.table) else None;
        next := if t.wildcard.Some? then t.wildcard.value.table else Empty();
      } else {
        child := if pieces[0] in t.next then Some(t.next[pieces[0]]) else None;
        next := if pieces[0] in t.next then t.next[pieces[0]] else Empty();
      }
      forall i | 0 <= i ensures ConflictAt(t, pieces, i + 1) <==> child.Some? && ConflictAt(child.value, rest, i) {
        ConflictShift(t, pieces, child, i);
      }
      InstallFailsIffConflict(next, rest, dflt);
      var clash := pieces[0] != "" && IsWildcardSegment(pieces[0]) && t.wildcard.Some?
                   && t.wildcard.value.name != WildcardName(pieces[0]);
      assert ConflictAt(t, pieces, 0) <==> clash;
      if clash {
        assert Install(t, pieces, dflt).Failure?;
      } else {
        assert Install(t, pieces, dflt).Failure? <==> Install(next, rest, dflt).Failure?;
      }
      if child.None? {
        forall i ensures !ConflictAt(next, rest, i) {
          EmptyHasNoConflict<R>(rest, i);
        }
      }
      assert child.Some? ==> child.value == next;
      if exists i :: ConflictAt(t, pieces, i) {
        var i :| ConflictAt(t, pieces, i);
        if i > 0 {
          assert ConflictAt(t, pieces, (i - 1) + 1);
          assert ConflictAt(next, rest, i - 1);
        }
        assert Install(t, pieces, dflt).Failure?;
      }
      if Install(t, pieces, dflt).Failure? && !clash {
        var i :| ConflictAt(next, rest, i);
        assert ConflictAt(t, pieces, i + 1);
      }
    }
  }

  /** Setting up a path a second time changes nothing. */
  lemma {:induction false} InstallIdempotent<R>(t: Table<R>, pieces: seq<string>, dflt: Option<R>)
    requires Install(t, pieces, dflt).Success?
    ensures Install(Install(t, pieces, dflt).value, pieces, dflt) == Install(t, pieces, dflt)
    decreases |pieces|
  {
    var r := Install(t, pieces, dflt).value;
    if |pieces| > 0 {
      if pieces[0] == "" {
        InstallIdempotent(t, pieces[1..], dflt);
      } else if IsWildcardSegment(pieces[0]) {
        var w := if t.wildcard.None? then Wildcard(WildcardName(pieces[0]), Empty()) else t.wildcard.value;
        InstallIdempotent(w.table, pieces[1..], dflt);
      } else {
        var child := if pieces[0] in t.next then t.next[pieces[0]] else Empty();
        InstallIdempotent(child, pieces[1..], dflt);
        assert r.next[pieces[0] := r.next[pieces[0]]] == r.next;
      }
    }
  }

  /** `setup` on a path that already has a resource returns that resource and
      leaves the table as it was, whatever the default offered. */
  lemma SetupTwice<R>(t: Table<R>, path: string, d1: R, d2: R)
    requires Setup(t, path, d1).Success?
    ensures Setup(Setup(t, path, d1).value.0, path, d2) == Setup(t, path, d1)
  {
    var pieces := Split(path, '/');
    var r := Install(t, pieces, Some(d1)).value;
    InstallAccepts(t, pieces, Some(d1));
    InstallIdempotent(t, pieces, Some(d1));
    assert AcceptAt(r, PatternSteps(pieces)).Some?;
    InstallSameOnStored(r, pieces, d1, d2);
  }

  /** When the registered node already holds a resource, the default offered
      makes no difference. */
  lemma {:induction false} InstallSameOnStored<R>(t: Table<R>, pieces: seq<string>, d1: R, d2: R)
    requires AcceptAt(t, PatternSteps(pieces)).Some?
    ensures Install(t, pieces, Some(d1)) == Install(t, pieces, Some(d2))
    decreases |pieces|
  {
    if |pieces| > 0 {
      if pieces[0] == "" {
        InstallSameOnStored(t, pieces[1..], d1, d2);
      } else {
        var P := PatternSteps(pieces);
        assert P == [P[0]] + PatternSteps(pieces[1..]);
        if IsWildcardSegment(pieces[0]) {
          InstallSameOnStored(t.wildcard.value.table, pieces[1..], d1, d2);
        } else {
          InstallSameOnStored(t.next[pieces[0]], pieces[1..], d1, d2);
        }
      }
    }
  }

  /** A path without `{name}` segments is a literal walk. */
  predicate IsLiteralPath(pieces: seq<string>) {
    forall i :: 0 <= i < |pieces| ==> !IsWildcardSegment(pieces[i])
  }

  lemma {:induction false} DescendLiteral<R>(t: Table<R>, pieces: seq<string>, vec: seq<string>, named: map<string, string>)
    requires IsLiteralPath(pieces)
    requires At(t, PatternSteps(pieces)).Some?
    ensures Descend(t, pieces, vec, named) == Some((At(t, PatternSteps(pieces)).value, RouteMatch(vec, named)))
    decreases |pieces|
  {
    if |pieces| > 0 {
      if pieces[0] == "" {
        DescendLiteral(t, pieces[1..], vec, named);
      } else {
        var P := PatternSteps(pieces);
        assert P == [Lit(pieces[0])] + PatternSteps(pieces[1..]);
        DescendLiteral(t.next[pieces[0]], pieces[1..], vec, named);
      }
    }
  }

  /** After `setup(path)` of a path without wildcards, routing that same path
      answers with the path's resource and captures nothing. */
  lemma SetupThenRouteLiteral<R>(t: Table<R>, path: string, dflt: R)
    requires IsLiteralPath(Split(path, '/'))
    requires Setup(t, path, dflt).Success?
    ensures var (t', res) := Setup(t, path, dflt).value;
      Route(t', path) == Some((res, RouteMatch([], map[])))
  {
    var t' := Setup(t, path, dflt).value.0;
    DescendLiteral(t', Split(path, '/'), [], map[]);
  }

  // ---------------------------------------------------------------------------
  // Fixtures from the module's own tests

  lemma SplitFixture2(s: string, a: string, b: string)
    requires s == a + "/" + b && '/' !in a && '/' !in b
    ensures Split(s, '/') == [a, b]
  {
    SplitTwo(a, b, '/');
  }

  lemma SplitFixture3(s: string, a: string, b: string, d: string)
    requires s == a + "/" + b + "/" + d && '/' !in a && '/' !in b && '/' !in d
    ensures Split(s, '/') == [a, b, d]
  {
    SplitThree(a, b, d, '/');
  }

  /** The table the wildcard_fallback test builds. */
  function FallbackTable(): Table<int> {
    Table(None, map["foo" := Table(Some(0), map["bar" := Table(Some(1), map[], None)],
                                   Some(Wildcard("", Table(None, map["bar" := Table(Some(2), map[], None)], None))))],
          None)
  }

  /** Registering "foo", "foo/bar" and "foo/{}/bar" on a new table builds
      `FallbackTable`. Each path is fresh when registered, so the test's
      `*setup(p) = v` stores v exactly as `setup` with default v does. */
  lemma FallbackSetup(p1: string, p2: string, p3: string)
    requires p1 == "foo" && p2 == "foo/bar" && p3 == "foo/{}/bar"
    ensures Setup(Empty<int>(), p1, 0).Success?
    ensures var t1 := Setup(Empty<int>(), p1, 0).value.0;
      Setup(t1, p2, 1).Success? &&
      var t2 := Setup(t1, p2, 1).value.0;
      Setup(t2, p3, 2).Success? &&
      Setup(t2, p3, 2).value.0 == FallbackTable()
  {
    SplitFixture2(p2, "foo", "bar");
    SplitFixture3(p3, "foo", "{}", "bar");
    FallbackInstalls();
  }

  lemma FallbackInstalls()
    ensures var t1 := Table(None, map["foo" := Table(Some(0), map[], None)], None);
      Install(Empty<int>(), ["foo"], Some(0)) == Success(t1) &&
      var t2 := Table(None, map["foo" := Table(Some(0), map["bar" := Table(Some(1), map[], None)], None)], None);
      Install(t1, ["foo", "bar"], Some(1)) == Success(t2) &&
      Install(t2, ["foo", "{}", "bar"], Some(2)) == Success(FallbackTable())
  {
    var E := Empty<int>();
    var leaf0, leaf1, leaf2 := Table(Some(0), map[], None), Table(Some(1), map[], None), Table(Some(2), map[], None);
    var t1 := Table(None, map["foo" := leaf0], None);
    assert Install(E, ["foo"], Some(0)) == Success(t1) by {
      assert ["foo"][1..] == [];
      assert Install(E, [], Some(0)) == Success(leaf0);
    }
    var foo2 := Table(Some(0), map["bar" := leaf1], None);
    var t2 := Table(None, map["foo" := foo2], None);
    assert Install(t1, ["foo", "bar"], Some(1)) == Success(t2) by {
      assert ["foo", "bar"][1..] == ["bar"];
      assert ["bar"][1..] == [];
      assert Install(E, [], Some(1)) == Success(leaf1);
      assert Install(E, ["bar"][1..], Some(1)) == Success(leaf1);
      assert leaf0.next["bar" := leaf1] == map["bar" := leaf1];
      assert Install(leaf0, ["bar"], Some(1)) == Success(foo2);
      assert t1.next["foo" := foo2] == map["foo" := foo2];
    }
    var wild := Table(None, map["bar" := leaf2], None);
    var foo3 := Table(Some(0), map["bar" := leaf1], Some(Wildcard("", wild)));
    assert Install(t2, ["foo", "{}", "bar"], Some(2)) == Success(FallbackTable()) by {
      assert ["foo", "{}", "bar"][1..] == ["{}", "bar"];
      assert ["{}", "bar"][1..] == ["bar"];
      assert ["bar"][1..] == [];
      assert IsWildcardSegment("{}") && WildcardName("{}") == "";
      assert !IsWildcardSegment("foo") && !IsWildcardSegment("bar");
      assert Install(E, [], Some(2)) == Success(leaf2);
      assert Install(E, ["bar"][1..], Some(2)) == Success(leaf2);
      assert Install(E, ["bar"], Some(2)) == Success(wild);
      assert foo2.wildcard.None?;
      assert Install(foo2, ["{}", "bar"], Some(2)) == Success(foo3);
      assert t2.next["foo" := foo3] == map["foo" := foo3];
    }
  }

  /** `route` on a path whose split pieces are known. */
  lemma RouteBySegments<R>(t: Table<R>, path: string, pieces: seq<string>)
    requires Split(path, '/') == pieces
    ensures Route(t, path) == match Descend(t, pieces, [], map[])
                              case None => None
                              case Some((node, m)) => if node.accept.Some? then Some((node.accept.value, m)) else None
  {
  }

  lemma FallbackWalks()
    ensures Descend(FallbackTable(), ["foo", "bar", "bar"], [], map[]) == None
    ensures Descend(FallbackTable(), ["foo", "baz", "bar"], [], map[])
         == Some((Table(Some(2), map[], None), RouteMatch(["baz"], map[])))
  {
    var t := FallbackTable();
    var leaf1, leaf2 := Table(Some(1), map[], None), Table(Some(2), map[], None);
    var wild := Table(None, map["bar" := leaf2], None);
    assert ["foo", "bar", "bar"][1..] == ["bar", "bar"];
    assert ["bar", "bar"][1..] == ["bar"];
    assert Descend(leaf1, ["bar"], [], map[]) == None;
    assert ["foo", "baz", "bar"][1..] == ["baz", "bar"];
    assert ["baz", "bar"][1..] == ["bar"];
    assert ["bar"][1..] == [];
    assert [] + ["baz"] == ["baz"];
    assert Descend(wild, ["bar"], ["baz"], map[]) == Some((leaf2, RouteMatch(["baz"], map[])));
  }

  /** wildcard_fallback: "foo/bar/bar" is unmatched, because the literal "bar"
      is taken after "foo" and the walk does not retry the wildcard. */
  lemma WildcardFallbackNoBacktrack(path: string)
    requires path == "foo/bar/bar"
    ensures Route(FallbackTable(), path) == None
  {
    FallbackWalks();
    SplitFixture3(path, "foo", "bar", "bar");
    RouteBySegments(FallbackTable(), path, ["foo", "bar", "bar"]);
  }

  /** wildcard_fallback: "foo/baz/bar" reaches the wildcard branch, capturing
      "baz" in the unnamed wildcard. */
  lemma WildcardFallbackCapture(path: string)
    requires path == "foo/baz/bar"
    ensures Route(FallbackTable(), path) == Some((2, RouteMatch(["baz"], map[])))
  {
    FallbackWalks();
    SplitFixture3(path, "foo", "baz", "bar");
    RouteBySegments(FallbackTable(), path, ["foo", "baz", "bar"]);
  }

  /** The table `a/{x}` builds from scratch: a literal child holding a
      wildcard named `x` whose node stores `v`. */
  function LiteralWildTable<R>(a: string, x: string, v: R): Table<R> {
    Table(None, map[a := Table(None, map[], Some(Wildcard(x, Table(Some(v), map[], None))))], None)
  }

  lemma InstallLiteralWild<R>(a: string, w: string, v: R)
    requires a != "" && !IsWildcardSegment(a) && IsWildcardSegment(w)
    ensures Install(Empty<R>(), [a, w], Some(v)) == Success(LiteralWildTable(a, WildcardName(w), v))
  {
    var leaf := Table(Some(v), map[], None);
    var mid := Table(None, map[], Some(Wildcard(WildcardName(w), leaf)));
    assert [a, w][1..] == [w] && [w][1..] == [];
    assert Install(Empty<R>(), [], Some(v)) == Success(leaf);
    assert Install(Empty<R>(), [w], Some(v)) == Success(mid);
  }

  lemma InstallWildConflict<R>(a: string, x: string, v: R, w: string, v': R)
    requires a != "" && !IsWildcardSegment(a) && IsWildcardSegment(w) && WildcardName(w) != x
    ensures Install(LiteralWildTable(a, x, v), [a, w], Some(v')) == Failure(Conflict(WildcardName(w), x))
  {
    var mid := Table(None, map[], Some(Wildcard(x, Table(Some(v), map[], None))));
    assert [a, w][1..] == [w];
    assert LiteralWildTable(a, x, v).next[a] == mid;
    assert Install(mid, [w], Some(v')) == Failure(Conflict(WildcardName(w), x));
  }

  /** After `a/{x}`, registering `a/{y}` with `y` different from `x` fails,
      naming both wildcards. */
  lemma SetupConflict<R>(a: string, x: string, y: string, v: R, p1: string, p2: string)
    requires a != "" && '/' !in a && !IsWildcardSegment(a) && '/' !in x && '/' !in y && x != y
    requires p1 == a + "/" + ("{" + x + "}") && p2 == a + "/" + ("{" + y + "}")
    ensures Setup(Empty<R>(), p1, v).Success?
    ensures Setup(Setup(Empty<R>(), p1, v).value.0, p2, v) == Failure(Conflict(y, x))
  {
    var w1, w2 := "{" + x + "}", "{" + y + "}";
    assert w1[1..|w1| - 1] == x && w2[1..|w2| - 1] == y;
    assert '/' !in w1 by {
      assert forall i :: 0 <= i < |w1| ==> w1[i] == '{' || w1[i] == '}' || w1[i] in x;
    }
    assert '/' !in w2 by {
      assert forall i :: 0 <= i < |w2| ==> w2[i] == '{' || w2[i] == '}' || w2[i] in y;
    }
    SplitFixture2(p1, a, w1);
    SplitFixture2(p2, a, w2);
    InstallLiteralWild(a, w1, v);
    InstallWildConflict(a, x, v, w2, v);
  }

  /** conflicting_wildcard_fails: after "foo/{foo}", registering "foo/{bar}"
      panics, naming both wildcard names. */
  lemma ConflictingWildcard(p1: string, p2: string)
    requires p1 == "foo/{foo}" && p2 == "foo/{bar}"
    ensures Setup(Empty<int>(), p1, 0).Success?
    ensures Setup(Setup(Empty<int>(), p1, 0).value.0, p2, 0) == Failure(Conflict("bar", "foo"))
  {
    assert p1 == "foo" + "/" + ("{" + "foo" + "}") && p2 == "foo" + "/" + ("{" + "bar" + "}");
    assert !IsWildcardSegment("foo") && '/' !in "foo" && '/' !in "bar" && "foo" != "bar";
    SetupConflict("foo", "foo", "bar", 0, p1, p2);
  }

  /** The table the named_wildcard test builds from "a/{x}", "a/{x}/{y}"
      and "{}": a literal `a`, under it a wildcard named `x` holding `v`,
      under that a wildcard named `y` holding `v`, and an unnamed wildcard
      at the root holding `v`. */
  function NamedTable<R>(a: string, x: string, y: string, v: R): Table<R> {
    var leaf := Table(Some(v), map[], None);
    Table(None, map[a := Table(None, map[], Some(Wildcard(x, Table(Some(v), map[], Some(Wildcard(y, leaf))))))],
          Some(Wildcard("", leaf)))
  }

  lemma NamedInstalls<R>(a: string, wx: string, wy: string, v: R)
    requires a != "" && !IsWildcardSegment(a) && IsWildcardSegment(wx) && IsWildcardSegment(wy)
    requires IsWildcardSegment("{}") && WildcardName("{}") == ""
    ensures var x, y := WildcardName(wx), WildcardName(wy);
      var t1 := LiteralWildTable(a, x, v);
      var t2 := NamedTable<R>(a, x, y, v).(wildcard := None);
      Install(Empty<R>(), [a, wx], Some(v)) == Success(t1) &&
      Install(t1, [a, wx, wy], Some(v)) == Success(t2) &&
      Install(t2, ["{}"], Some(v)) == Success(NamedTable(a, x, y, v))
  {
    var x, y := WildcardName(wx), WildcardName(wy);
    var E := Empty<R>();
    var leaf := Table(Some(v), map[], None);
    InstallLiteralWild(a, wx, v);
    var t1 := LiteralWildTable(a, x, v);
    var xnode2 := Table(Some(v), map[], Some(Wildcard(y, leaf)));
    var mid2 := Table(None, map[], Some(Wildcard(x, xnode2)));
    assert Install(t1, [a, wx, wy], Some(v)) == Success(Table(None, map[a := mid2], None)) by {
      assert [a, wx, wy][1..] == [wx, wy] && [wx, wy][1..] == [wy] && [wy][1..] == [];
      assert Install(E, [], Some(v)) == Success(leaf);
      assert Install(E, [wy], Some(v)) == Success(Table(None, map[], Some(Wildcard(y, leaf))));
      assert Install(leaf, [wy], Some(v)) == Success(xnode2);
      assert Install(t1.next[a], [wx, wy], Some(v)) == Success(mid2);
      assert t1.next[a := mid2] == map[a := mid2];
    }
    var t2 := Table(None, map[a := mid2], None);
    assert Install(t2, ["{}"], Some(v)) == Success(t2.(wildcard := Some(Wildcard("", leaf)))) by {
      assert ["{}"][1..] == [];
      assert Install(E, [], Some(v)) == Success(leaf);
    }
  }

  lemma NamedWalks<R>(a: string, x: string, y: string, v: R, s1: string, s2: string, c: string)
    requires a != "" && x != "" && y != "" && s1 != "" && s2 != "" && c != "" && c != a
    ensures var t := NamedTable(a, x, y, v);
      var leaf := Table(Some(v), map[], None);
      var xnode := Table(Some(v), map[], Some(Wildcard(y, leaf)));
      && Descend(t, [a, s1], [], map[]) == Some((xnode, RouteMatch([s1], map[x := s1])))
      && Descend(t, [a, s1, s2], [], map[]) == Some((leaf, RouteMatch([s1, s2], map[x := s1][y := s2])))
      && Descend(t, [c], [], map[]) == Some((leaf, RouteMatch([c], map[])))
  {
    var t := NamedTable(a, x, y, v);
    var leaf := Table(Some(v), map[], None);
    var xnode := Table(Some(v), map[], Some(Wildcard(y, leaf)));
    var mid := t.next[a];
    assert [a, s1][1..] == [s1] && [s1][1..] == [];
    assert [a, s1, s2][1..] == [s1, s2] && [s1, s2][1..] == [s2] && [s2][1..] == [];
    assert [c][1..] == [];
    assert [] + [s1] == [s1] && [s1] + [s2] == [s1, s2] && [] + [c] == [c];
    assert Descend(mid, [s1], [], map[]) == Some((xnode, RouteMatch([s1], map[x := s1])));
    assert Descend(xnode, [s2], [s1], map[x := s1]) == Some((leaf, RouteMatch([s1, s2], map[x := s1][y := s2])));
    assert Descend(mid, [s1, s2], [], map[]) == Descend(xnode, [s2], [s1], map[x := s1]);
  }

  /** Registering "a/{x}", "a/{x}/{y}" and "{}" on a new table builds
      `NamedTable`; each path is fresh when registered. */
  lemma NamedSetup<R>(a: string, x: string, y: string, v: R, p1: string, p2: string, p3: string)
    requires a != "" && '/' !in a && !IsWildcardSegment(a) && '/' !in x && '/' !in y
    requires p1 == a + "/" + ("{" + x + "}") && p2 == a + "/" + ("{" + x + "}") + "/" + ("{" + y + "}") && p3 == "{}"
    ensures Setup(Empty<R>(), p1, v).Success?
    ensures var t1 := Setup(Empty<R>(), p1, v).value.0;
      Setup(t1, p2, v).Success? &&
      var t2 := Setup(t1, p2, v).value.0;
      Setup(t2, p3, v).Success? &&
      Setup(t2, p3, v).value.0 == NamedTable(a, x, y, v)
  {
    var wx, wy := "{" + x + "}", "{" + y + "}";
    assert wx[1..|wx| - 1] == x && wy[1..|wy| - 1] == y;
    assert '/' !in wx by {
      assert forall i :: 0 <= i < |wx| ==> wx[i] == '{' || wx[i] == '}' || wx[i] in x;
    }
    assert '/' !in wy by {
      assert forall i :: 0 <= i < |wy| ==> wy[i] == '{' || wy[i] == '}' || wy[i] in y;
    }
    assert IsWildcardSegment("{}") && WildcardName("{}") == "";
    SplitFixture2(p1, a, wx);
    SplitFixture3(p2, a, wx, wy);
    assert Split(p3, '/') == [p3];
    NamedInstalls(a, wx, wy, v);
  }

  /** named_wildcard, registration: "foo/{foo}", "foo/{foo}/{bar}" and "{}"
      build `NamedTable`. */
  lemma NamedWildcardSetup(p1: string, p2: string, p3: string)
    requires p1 == "foo/{foo}" && p2 == "foo/{foo}/{bar}" && p3 == "{}"
    ensures Setup(Empty<()>(), p1, ()).Success?
    ensures var t1 := Setup(Empty<()>(), p1, ()).value.0;
      Setup(t1, p2, ()).Success? &&
      var t2 := Setup(t1, p2, ()).value.0;
      Setup(t2, p3, ()).Success? &&
      Setup(t2, p3, ()).value.0 == NamedTable("foo", "foo", "bar", ())
  {
    assert p1 == "foo" + "/" + ("{" + "foo" + "}") && p2 == "foo" + "/" + ("{" + "foo" + "}") + "/" + ("{" + "bar" + "}");
    assert !IsWildcardSegment("foo");
    NamedSetup("foo", "foo", "bar", (), p1, p2, p3);
  }

  /** named_wildcard, lookups: "foo/a" captures a under foo, "foo/a/b"
      captures a under foo and b under bar, and "c" is captured by the
      unnamed wildcard, binding no name. */
  lemma NamedWildcardRoutes(q1: string, q2: string, q3: string)
    requires q1 == "foo/a" && q2 == "foo/a/b" && q3 == "c"
    ensures var t := NamedTable("foo", "foo", "bar", ());
      && Route(t, q1) == Some(((), RouteMatch(["a"], map["foo" := "a"])))
      && Route(t, q2) == Some(((), RouteMatch(["a", "b"], map["foo" := "a", "bar" := "b"])))
      && Route(t, q3) == Some(((), RouteMatch(["c"], map[])))
  {
    assert q1 == "foo" + "/" + "a" && q2 == "foo" + "/" + "a" + "/" + "b";
    SplitFixture2(q1, "foo", "a");
    SplitFixture3(q2, "foo", "a", "b");
    assert Split(q3, '/') == [q3];
    NamedWalks("foo", "foo", "bar", (), "a", "b", "c");
    var t := NamedTable("foo", "foo", "bar", ());
    RouteBySegments(t, q1, ["foo", "a"]);
    RouteBySegments(t, q2, ["foo", "a", "b"]);
    RouteBySegments(t, q3, ["c"]);
  }

  // ---------------------------------------------------------------------------
  // iter: the resources of every node, each exactly once

  predicate IsPrefix(a: seq<Step>, b: seq<Step>) {
    |a| <= |b| && b[..|a|] == a
  }

  /** The positions of all nodes of `t`. */
  ghost function Positions<R>(t: Table<R>): set<seq<Step>>
  {
    {[]}
    + (set k, p | k in t.next && p in Positions(t.next[k]) :: [Lit(k)] + p)
    + (if t.wildcard.Some? then (set p | p in Positions(t.wildcard.value.table) :: [Wild] + p) else {})
  }

  lemma {:induction false} PositionsExist<R>(t: Table<R>, pos: seq<Step>)
    ensures pos in Positions(t) <==> At(t, pos).Some?
    decreases |pos|
  {
    if |pos| > 0 {
      var rest := pos[1..];
      assert pos == [pos[0]] + rest;
      match pos[0]
      case Lit(k) =>
        if k in t.next {
          PositionsExist(t.next[k], rest);
          if pos in Positions(t) {
            var k', p' :| k' in t.next && p' in Positions(t.next[k']) && pos == [Lit(k')] + p';
            assert k' == k && p' == rest;
          }
        }
      case Wild =>
        if t.wildcard.Some? {
          PositionsExist(t.wildcard.value.table, rest);
        }
    }
  }

  /** Some stack entry's position is a prefix of `pos`. */
  ghost predicate Covered(poss: seq<seq<Step>>, pos: seq<Step>) {
    exists i :: 0 <= i < |poss| && IsPrefix(poss[i], pos)
  }

  /** No stack entry's position is a prefix of another's. */
  ghost predicate Antichain(poss: seq<seq<Step>>) {
    forall i, j :: 0 <= i < |poss| && 0 <= j < |poss| && i != j ==> !IsPrefix(poss[i], poss[j])
  }

  /** Pushes the literal children of `n` in the order the map happens to
      yield them (`stack.extend(table.next.values())`); `order` is that order. */
  method PushChildren<R>(stack: seq<Table<R>>, n: Table<R>) returns (stack': seq<Table<R>>, ghost order: seq<string>)
    ensures |stack'| == |stack| + |order| && stack'[..|stack|] == stack
    ensures forall j :: 0 <= j < |order| ==> order[j] in n.next && stack'[|stack| + j] == n.next[order[j]]
    ensures forall k :: k in n.next ==> k in order
    ensures forall i, j :: 0 <= i < j < |order| ==> order[i] != order[j]
  {
    stack', order := stack, [];
    var keys := n.next.Keys;
    while keys != {}
      invariant keys <= n.next.Keys
      invariant |stack'| == |stack| + |order| && stack'[..|stack|] == stack
      invariant forall j :: 0 <= j < |order| ==> order[j] in n.next && order[j] !in keys && stack'[|stack| + j] == n.next[order[j]]
      invariant forall k :: k in n.next && k !in keys ==> k in order
      invariant forall i, j :: 0 <= i < j < |order| ==> order[i] != order[j]
      decreases keys
    {
      var k :| k in keys;
      stack', order := stack' + [n.next[k]], order + [k];
      keys := keys - {k};
    }
  }

  /** The stack holds the nodes at positions `poss`. */
  ghost predicate StackAt<R>(t: Table<R>, stack: seq<Table<R>>, poss: seq<seq<Step>>) {
    |stack| == |poss| && forall i :: 0 <= i < |poss| ==> At(t, poss[i]) == Some(stack[i])
  }

  /** The stack is the frontier of the walk: a node has been visited iff no
      stack entry lies on the path to it. */
  ghost predicate Frontier<R>(t: Table<R>, poss: seq<seq<Step>>, visited: set<seq<Step>>) {
    && Antichain(poss)
    && (forall pos :: At(t, pos).Some? ==> (pos in visited <==> !Covered(poss, pos)))
    && visited <= Positions(t)
  }

  /** The resources yielded so far are exactly those of the visited nodes,
      each once. */
  ghost predicate Yielded<R>(t: Table<R>, visited: set<seq<Step>>, out: seq<R>, at: seq<seq<Step>>) {
    && |at| == |out|
    && (forall i :: 0 <= i < |out| ==> AcceptAt(t, at[i]) == Some(out[i]) && at[i] in visited)
    && (forall i, j :: 0 <= i < j < |at| ==> at[i] != at[j])
    && (forall pos :: pos in visited && Stored(t, pos) ==> pos in at)
  }

  /** `iter`: pops a node, pushes its literal children and then its wildcard
      child, and yields its resource if it has one. Every stored resource is
      yielded exactly once, whatever order the child maps are visited in;
      `at` records the position each yielded resource came from. */
  method Resources<R>(t: Table<R>) returns (out: seq<R>, ghost at: seq<seq<Step>>)
    ensures |at| == |out|
    ensures forall i :: 0 <= i < |out| ==> AcceptAt(t, at[i]) == Some(out[i])
    ensures forall i, j :: 0 <= i < j < |at| ==> at[i] != at[j]
    ensures forall pos :: Stored(t, pos) ==> pos in at
    ensures forall v :: v in out <==> exists pos :: AcceptAt(t, pos) == Some(v)
  {
    var stack: seq<Table<R>> := [t];
    ghost var poss: seq<seq<Step>> := [[]];
    ghost var visited: set<seq<Step>> := {};
    out, at := [], [];
    ResourcesStart(t);
    while |stack| > 0
      invariant WalkInv(t, stack, poss, visited, out, at)
      decreases |Positions(t) - visited|
    {
      var n := stack[|stack| - 1];
      var base := stack[..|stack| - 1];
      var pushed;
      ghost var order;
      pushed, order := PushChildren(base, n);
      WalkStep(t, stack, poss, visited, out, at, base, n, order, pushed);
      ghost var p := poss[|poss| - 1];
      stack := pushed + (if n.wildcard.Some? then [n.wildcard.value.table] else []);
      poss := poss[..|poss| - 1] + Children(p, order) + (if n.wildcard.Some? then [p + [Wild]] else []);
      out := out + (if n.accept.Some? then [n.accept.value] else []);
      at := at + (if n.accept.Some? then [p] else []);
      visited := visited + {p};
    }
    ResourcesDone(t, visited, out, at);
    YieldedValues(t, out, at);
  }

  /** A yield that pairs each resource with its own node and covers every
      stored position holds exactly the stored resources. */
  lemma YieldedValues<R>(t: Table<R>, out: seq<R>, at: seq<seq<Step>>)
    requires |at| == |out|
    requires forall i :: 0 <= i < |out| ==> AcceptAt(t, at[i]) == Some(out[i])
    requires forall pos :: Stored(t, pos) ==> pos in at
    ensures forall v :: v in out <==> exists pos :: AcceptAt(t, pos) == Some(v)
  {
    forall v | v in out ensures exists pos :: AcceptAt(t, pos) == Some(v) {
      var i :| 0 <= i < |out| && out[i] == v;
      assert AcceptAt(t, at[i]) == Some(v);
    }
    forall v | exists pos :: AcceptAt(t, pos) == Some(v) ensures v in out {
      var pos :| AcceptAt(t, pos) == Some(v);
      assert Stored(t, pos);
      var k :| 0 <= k < |at| && at[k] == pos;
      assert out[k] == v;
    }
  }

  /** The invariant of the walk: the stack is the frontier and the yield so
      far matches the visited nodes. */
  ghost predicate WalkInv<R>(t: Table<R>, stack: seq<Table<R>>, poss: seq<seq<Step>>, visited: set<seq<Step>>,
                             out: seq<R>, at: seq<seq<Step>>) {
    StackAt(t, stack, poss) && Frontier(t, poss, visited) && Yielded(t, visited, out, at)
  }

  /** One iteration, stated on the whole stack: the top is popped, its
      children pushed, and the invariant kept with one more node visited. */
  lemma WalkStep<R>(t: Table<R>, stack: seq<Table<R>>, poss: seq<seq<Step>>, visited: set<seq<Step>>,
                    out: seq<R>, at: seq<seq<Step>>, base: seq<Table<R>>, n: Table<R>, order: seq<string>,
                    pushed: seq<Table<R>>)
    requires |stack| > 0 && base == stack[..|stack| - 1] && n == stack[|stack| - 1]
    requires WalkInv(t, stack, poss, visited, out, at)
    requires |pushed| == |base| + |order| && pushed[..|base|] == base
    requires forall j :: 0 <= j < |order| ==> order[j] in n.next && pushed[|base| + j] == n.next[order[j]]
    requires forall k :: k in n.next ==> k in order
    requires forall i, j :: 0 <= i < j < |order| ==> order[i] != order[j]
    ensures |poss| == |stack|
    ensures var p := poss[|poss| - 1];
      && WalkInv(t, pushed + (if n.wildcard.Some? then [n.wildcard.value.table] else []),
                 poss[..|poss| - 1] + Children(p, order) + (if n.wildcard.Some? then [p + [Wild]] else []),
                 visited + {p},
                 out + (if n.accept.Some? then [n.accept.value] else []),
                 at + (if n.accept.Some? then [p] else []))
      && |Positions(t) - (visited + {p})| < |Positions(t) - visited|
  {
    var p, rest := poss[|poss| - 1], poss[..|poss| - 1];
    SplitLast(stack);
    SplitLast(poss);
    IterStep(t, base, n, rest, p, visited, out, at, order, pushed);
  }

  /** A non-empty sequence is its prefix followed by its last element. */
  lemma SplitLast<T>(s: seq<T>)
    requires |s| > 0
    ensures s == s[..|s| - 1] + [s[|s| - 1]]
  {
  }

  /** Before the walk the stack holds the root alone, which covers every
      node. */
  lemma ResourcesStart<R>(t: Table<R>)
    ensures WalkInv(t, [t], [[]], {}, [], [])
  {
    forall pos | At(t, pos).Some? ensures Covered([[]], pos) {
      assert IsPrefix([[]][0], pos);
    }
  }

  /** Once the stack is empty every node has been visited, so every stored
      resource has been yielded. */
  lemma ResourcesDone<R>(t: Table<R>, visited: set<seq<Step>>, out: seq<R>, at: seq<seq<Step>>)
    requires WalkInv(t, [], [], visited, out, at)
    ensures |at| == |out|
    ensures forall i :: 0 <= i < |out| ==> AcceptAt(t, at[i]) == Some(out[i])
    ensures forall i, j :: 0 <= i < j < |at| ==> at[i] != at[j]
    ensures forall pos :: Stored(t, pos) ==> pos in at
  {
    assert forall pos :: At(t, pos).Some? ==> pos in visited;
  }

  /** One iteration of the walk: `n` at position `p` is popped from the top
      of the stack; the iteration keeps the stack, frontier and yield
      invariants and visits a node not visited before. */
  lemma IterStep<R>(t: Table<R>, base: seq<Table<R>>, n: Table<R>, rest: seq<seq<Step>>, p: seq<Step>,
                    visited: set<seq<Step>>, out: seq<R>, at: seq<seq<Step>>, order: seq<string>,
                    pushed: seq<Table<R>>)
    requires StackAt(t, base + [n], rest + [p]) && Frontier(t, rest + [p], visited) && Yielded(t, visited, out, at)
    requires |pushed| == |base| + |order| && pushed[..|base|] == base
    requires forall j :: 0 <= j < |order| ==> order[j] in n.next && pushed[|base| + j] == n.next[order[j]]
    requires forall k :: k in n.next ==> k in order
    requires forall i, j :: 0 <= i < j < |order| ==> order[i] != order[j]
    ensures StackAt(t, pushed + (if n.wildcard.Some? then [n.wildcard.value.table] else []),
                    rest + Children(p, order) + (if n.wildcard.Some? then [p + [Wild]] else []))
    ensures Frontier(t, rest + Children(p, order) + (if n.wildcard.Some? then [p + [Wild]] else []), visited + {p})
    ensures Yielded(t, visited + {p}, out + (if n.accept.Some? then [n.accept.value] else []),
                    at + (if n.accept.Some? then [p] else []))
    ensures p !in visited && p in Positions(t)
    ensures |Positions(t) - (visited + {p})| < |Positions(t) - visited|
  {
    var stack' := pushed + (if n.wildcard.Some? then [n.wildcard.value.table] else []);
    var poss' := rest + Children(p, order) + (if n.wildcard.Some? then [p + [Wild]] else []);
    assert At(t, p) == Some(n) by { assert (rest + [p])[|rest|] == p && (base + [n])[|base|] == n; }
    assert StackAt(t, base, rest) by {
      forall i | 0 <= i < |rest| ensures At(t, rest[i]) == Some(base[i]) {
        assert (rest + [p])[i] == rest[i] && (base + [n])[i] == base[i];
      }
    }
    PopShape(rest, p, order, n.wildcard.Some?, poss');
    PopStack(t, n, rest, p, order, base, pushed, stack', poss');
    PopFrontier(t, n, rest, p, order, poss', visited);
    PopYield(t, n, p, visited, out, at, out + (if n.accept.Some? then [n.accept.value] else []),
             at + (if n.accept.Some? then [p] else []));
  }

  lemma PopShape(rest: seq<seq<Step>>, p: seq<Step>, order: seq<string>, wild: bool, poss: seq<seq<Step>>)
    requires poss == rest + Children(p, order) + (if wild then [p + [Wild]] else [])
    ensures PushedAfter(rest, p, order, wild, poss)
  {
    forall j | 0 <= j < |order| ensures poss[|rest| + j] == p + [Lit(order[j])] {
      assert poss[|rest| + j] == Children(p, order)[j];
    }
  }

  lemma PopStack<R>(t: Table<R>, n: Table<R>, rest: seq<seq<Step>>, p: seq<Step>, order: seq<string>,
                    base: seq<Table<R>>, pushed: seq<Table<R>>, stack: seq<Table<R>>, poss: seq<seq<Step>>)
    requires At(t, p) == Some(n) && StackAt(t, base, rest)
    requires |pushed| == |base| + |order| && pushed[..|base|] == base
    requires forall j :: 0 <= j < |order| ==> order[j] in n.next && pushed[|base| + j] == n.next[order[j]]
    requires stack == pushed + (if n.wildcard.Some? then [n.wildcard.value.table] else [])
    requires PushedAfter(rest, p, order, n.wildcard.Some?, poss)
    ensures StackAt(t, stack, poss)
  {
    forall i | 0 <= i < |poss| ensures At(t, poss[i]) == Some(stack[i]) {
      if i >= |rest| {
        assert i < |base| + |order| ==> stack[i] == pushed[i];
        var x := PushedShape(rest, p, order, n.wildcard.Some?, poss, i);
        AtAppend(t, p, [x]);
      } else {
        assert poss[i] == rest[i] && stack[i] == base[i];
      }
    }
  }

  lemma PopYield<R>(t: Table<R>, n: Table<R>, p: seq<Step>, visited: set<seq<Step>>,
                    out0: seq<R>, at0: seq<seq<Step>>, out: seq<R>, at: seq<seq<Step>>)
    requires At(t, p) == Some(n) && p !in visited
    requires Yielded(t, visited, out0, at0)
    requires out == out0 + (if n.accept.Some? then [n.accept.value] else [])
    requires at == at0 + (if n.accept.Some? then [p] else [])
    ensures Yielded(t, visited + {p}, out, at)
  {
  }

  lemma PopFrontier<R>(t: Table<R>, n: Table<R>, rest: seq<seq<Step>>, p: seq<Step>, order: seq<string>,
                       poss: seq<seq<Step>>, visited: set<seq<Step>>)
    requires At(t, p) == Some(n)
    requires Frontier(t, rest + [p], visited)
    requires forall k :: k in n.next ==> k in order
    requires forall i, j :: 0 <= i < j < |order| ==> order[i] != order[j]
    requires PushedAfter(rest, p, order, n.wildcard.Some?, poss)
    ensures Frontier(t, poss, visited + {p})
    ensures p !in visited && p in Positions(t)
    ensures |Positions(t) - (visited + {p})| < |Positions(t) - visited|
  {
    PopAntichain(rest, p, order, n.wildcard.Some?, poss);
    forall pos | At(t, pos).Some? ensures pos in visited + {p} <==> !Covered(poss, pos) {
      PopCovers(t, n, rest, p, order, poss, visited, pos);
    }
    assert Covered(rest + [p], p) by { assert IsPrefix((rest + [p])[|rest|], p); }
    PositionsExist(t, p);
  }

  ghost function Children(p: seq<Step>, order: seq<string>): (r: seq<seq<Step>>)
    ensures |r| == |order|
    ensures forall j :: 0 <= j < |order| ==> r[j] == p + [Lit(order[j])]
  {
    if |order| == 0 then [] else [p + [Lit(order[0])]] + Children(p, order[1..])
  }

  /** Positions of the stack after popping `p` and pushing its children. */
  ghost predicate PushedAfter(rest: seq<seq<Step>>, p: seq<Step>, order: seq<string>, wild: bool, poss: seq<seq<Step>>) {
    |poss| == |rest| + |order| + (if wild then 1 else 0)
    && poss[..|rest|] == rest
    && (forall j :: 0 <= j < |order| ==> poss[|rest| + j] == p + [Lit(order[j])])
    && (wild ==> poss[|poss| - 1] == p + [Wild])
  }

  lemma PushedShape(rest: seq<seq<Step>>, p: seq<Step>, order: seq<string>, wild: bool, poss: seq<seq<Step>>, i: int)
    returns (x: Step)
    requires PushedAfter(rest, p, order, wild, poss)
    requires |rest| <= i < |poss|
    ensures poss[i] == p + [x]
    ensures x.Wild? <==> i == |rest| + |order|
    ensures x.Lit? ==> x.seg == order[i - |rest|]
  {
    if i < |rest| + |order| {
      x := Lit(order[i - |rest|]);
    } else {
      x := Wild;
    }
  }

  lemma NotPrefixOfChild(q: seq<Step>, p: seq<Step>, x: Step)
    requires !IsPrefix(q, p) && !IsPrefix(p, q)
    ensures !IsPrefix(q, p + [x])
  {
    if |q| <= |p| {
      assert (p + [x])[..|q|] == p[..|q|];
    } else {
      assert (p + [x])[..|p|] == p;
    }
  }

  lemma ChildNotPrefix(p: seq<Step>, x: Step, q: seq<Step>)
    requires !IsPrefix(p, q)
    ensures !IsPrefix(p + [x], q)
  {
    if |p| + 1 <= |q| {
      assert q[..|p|] == q[..|p| + 1][..|p|];
      assert (p + [x])[..|p|] == p;
    }
  }

  lemma SiblingsNotPrefix(p: seq<Step>, x: Step, y: Step)
    requires x != y
    ensures !IsPrefix(p + [x], p + [y])
  {
    assert (p + [x])[|p|] == x;
    assert (p + [y])[|p|] == y;
  }

  lemma PopAntichain(rest: seq<seq<Step>>, p: seq<Step>, order: seq<string>, wild: bool, poss: seq<seq<Step>>)
    requires Antichain(rest + [p])
    requires forall i, j :: 0 <= i < j < |order| ==> order[i] != order[j]
    requires PushedAfter(rest, p, order, wild, poss)
    ensures Antichain(poss)
  {
    var old_ := rest + [p];
    forall i, j | 0 <= i < |poss| && 0 <= j < |poss| && i != j
      ensures !IsPrefix(poss[i], poss[j])
    {
      if i < |rest| && j < |rest| {
        assert poss[i] == old_[i] && poss[j] == old_[j];
      } else if i < |rest| {
        assert poss[i] == old_[i] && p == old_[|rest|];
        var x := PushedShape(rest, p, order, wild, poss, j);
        NotPrefixOfChild(poss[i], p, x);
      } else if j < |rest| {
        assert poss[j] == old_[j] && p == old_[|rest|];
        var x := PushedShape(rest, p, order, wild, poss, i);
        ChildNotPrefix(p, x, poss[j]);
      } else {
        var x := PushedShape(rest, p, order, wild, poss, i);
        var y := PushedShape(rest, p, order, wild, poss, j);
        SiblingsNotPrefix(p, x, y);
      }
    }
  }

  lemma PopCovers<R>(t: Table<R>, n: Table<R>, rest: seq<seq<Step>>, p: seq<Step>, order: seq<string>,
                     poss: seq<seq<Step>>, visited: set<seq<Step>>, pos: seq<Step>)
    requires At(t, p) == Some(n)
    requires Antichain(rest + [p])
    requires forall k :: k in n.next ==> k in order
    requires PushedAfter(rest, p, order, n.wildcard.Some?, poss)
    requires forall q :: At(t, q).Some? ==> (q in visited <==> !Covered(rest + [p], q))
    requires At(t, pos).Some?
    ensures pos in visited + {p} <==> !Covered(poss, pos)
  {
    var old_ := rest + [p];
    assert p == old_[|rest|];
    if pos == p {
      assert Covered(old_, p) by { assert IsPrefix(old_[|rest|], p); }
      forall i | 0 <= i < |poss| ensures !IsPrefix(poss[i], p) {
        if i < |rest| {
          assert poss[i] == old_[i];
        } else {
          var x := PushedShape(rest, p, order, n.wildcard.Some?, poss, i);
        }
      }
    } else if IsPrefix(p, pos) {
      assert Covered(old_, pos) by { assert IsPrefix(old_[|rest|], pos); }
      var x := pos[|p|];
      assert pos == p + ([x] + pos[|p| + 1..]);
      AtAppend(t, p, [x] + pos[|p| + 1..]);
      var child := p + [x];
      assert IsPrefix(child, pos) by { assert pos[..|child|] == child; }
      match x
      case Lit(k) =>
        assert k in n.next;
        var j :| 0 <= j < |order| && order[j] == k;
        assert IsPrefix(poss[|rest| + j], pos);
      case Wild =>
        assert IsPrefix(poss[|poss| - 1], pos);
    } else {
      forall i | |rest| <= i < |poss| ensures !IsPrefix(poss[i], pos) {
        var x := PushedShape(rest, p, order, n.wildcard.Some?, poss, i);
        ChildNotPrefix(p, x, pos);
      }
      forall i | 0 <= i < |rest| ensures poss[i] == old_[i] { }
    }
  }
}
