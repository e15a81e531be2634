/** The registry of live sources: the nested map of `media_source.cpp`, its recursive erase,
    and what registering, expiring and finding sources keep. */
module SourceRegistries {
  import opened Bytes

  type Id = nat
  type Path = seq<string>

  /** Schema, vhost, app, stream. */
  const DEPTH := 4

  /** A level of the nested map; `Weak` is the weak reference at the bottom. */
  datatype Node = Weak(id: Id) | Level(children: map<string, Node>)

  /** Every path has the same length and no inner map is empty. */
  ghost predicate Shaped(n: Node, depth: nat)
    decreases depth
  {
    if depth == 0 then n.Weak? else n.Level? && forall k | k in n.children :: Shaped(n.children[k], depth - 1) && n.children[k] != Level(map[])
  }

  function Lookup(n: Node, path: Path): Option<Id>
    requires Shaped(n, |path|)
    decreases |path|
  {
    if path == [] then Some(n.id)
    else if path[0] in n.children then Lookup(n.children[path[0]], path[1..])
    else None
  }

  /** `sources[schema][vhost][app][stream] = weak`: missing levels are created. */
  function Insert(n: Node, path: Path, id: Id): (r: Node)
    requires Shaped(n, |path|)
    ensures Shaped(r, |path|) && r != Level(map[])
    decreases |path|
  {
    if path == [] then Weak(id)
    else
      var k := path[0];
      var children := n.children[k := if k in n.children then Insert(n.children[k], path[1..], id) else Chain(path[1..], id)];
      assert k in children;
      Level(children)
  }

  /** The levels that operator[] makes up below a missing key. */
  function Chain(path: Path, id: Id): (r: Node)
    ensures Shaped(r, |path|) && r != Level(map[])
    decreases |path|
  {
    if path == [] then Weak(id)
    else
      var children := map[path[0] := Chain(path[1..], id)];
      assert path[0] in children;
      Level(children)
  }

  /** `erase_media_source`: the reference goes if it is expired or the caller's own, and so
      does every level that becomes empty. */
  function Erase(n: Node, path: Path, self: Id, alive: set<Id>): (r: Node)
    requires path != [] && Shaped(n, |path|)
    ensures Shaped(r, |path|)
    decreases |path|
  {
    var k := path[0];
    if k !in n.children then n
    else if |path| == 1 then
      var id := n.children[k].id;
      if id !in alive || id == self then Level(n.children - {k}) else n
    else
      var child := Erase(n.children[k], path[1..], self, alive);
      if child.children == map[] then Level(n.children - {k}) else Level(n.children[k := child])
  }

  // ---------------------------------------------------------------- a flat map

  lemma {:induction false} ChainLookup(path: Path, id: Id, q: Path)
    requires |q| == |path|
    ensures Lookup(Chain(path, id), q) == if q == path then Some(id) else None
    decreases |path|
  {
    if path != [] {
      ChainLookup(path[1..], id, q[1..]);
      assert q == [q[0]] + q[1..] && path == [path[0]] + path[1..];
    }
  }

  /** Inserting changes the entry at the path and no other. */
  lemma {:induction false} InsertLookup(n: Node, path: Path, id: Id, q: Path)
    requires Shaped(n, |path|) && |q| == |path|
    ensures Lookup(Insert(n, path, id), q) == if q == path then Some(id) else Lookup(n, q)
    decreases |path|
  {
    if path != [] {
      assert q == [q[0]] + q[1..] && path == [path[0]] + path[1..];
      if q[0] == path[0] {
        if path[0] in n.children {
          InsertLookup(n.children[path[0]], path[1..], id, q[1..]);
        } else {
          ChainLookup(path[1..], id, q[1..]);
        }
      }
    }
  }

  predicate Erasable(entry: Option<Id>, self: Id, alive: set<Id>) {
    entry.Some? && (entry.value !in alive || entry.value == self)
  }

  /** Erasing removes the entry at the path exactly when it is expired or the caller's own,
      and touches no other. */
  lemma {:induction false} EraseLookup(n: Node, path: Path, self: Id, alive: set<Id>, q: Path)
    requires path != [] && Shaped(n, |path|) && |q| == |path|
    ensures Lookup(Erase(n, path, self, alive), q)
            == if q == path && Erasable(Lookup(n, path), self, alive) then None else Lookup(n, q)
    decreases |path|
  {
    assert q == [q[0]] + q[1..] && path == [path[0]] + path[1..];
    if path[0] in n.children {
      if |path| == 1 {
        assert path[1..] == [] && q[1..] == [];
      } else {
        EraseLookup(n.children[path[0]], path[1..], self, alive, q[1..]);
      }
    }
  }

  /** In a shaped tree a level that is not empty has an entry: the nesting holds nothing but
      the flat map. */
  lemma {:induction false} LevelHasEntry(n: Node, depth: nat) returns (path: Path)
    requires Shaped(n, depth) && n != Level(map[])
    ensures |path| == depth && Lookup(n, path).Some?
    decreases depth
  {
    if depth == 0 {
      path := [];
    } else {
      var k :| k in n.children;
      var rest := LevelHasEntry(n.children[k], depth - 1);
      path := [k] + rest;
      assert path[1..] == rest;
    }
  }

  ghost predicate SameEntries(m: Node, n: Node, depth: nat)
    requires Shaped(m, depth) && Shaped(n, depth)
  {
    forall q: Path | |q| == depth :: Lookup(m, q) == Lookup(n, q)
  }

  /** Two registries with the same flat map are equal. */
  lemma {:induction false} FlatDetermines(m: Node, n: Node, depth: nat)
    requires Shaped(m, depth) && Shaped(n, depth) && SameEntries(m, n, depth)
    ensures m == n
    decreases depth
  {
    if depth == 0 {
      assert Lookup(m, []) == Lookup(n, []);
    } else {
      forall k | k in m.children || k in n.children
        ensures k in m.children && k in n.children && m.children[k] == n.children[k]
      {
        SameChild(m, n, depth, k);
        FlatDetermines(m.children[k], n.children[k], depth - 1);
      }
      assert m.children == n.children;
    }
  }

  lemma SameChild(m: Node, n: Node, depth: nat, k: string)
    requires depth > 0 && Shaped(m, depth) && Shaped(n, depth) && SameEntries(m, n, depth)
    requires k in m.children || k in n.children
    ensures k in m.children && k in n.children && SameEntries(m.children[k], n.children[k], depth - 1)
  {
    var rest := LevelHasEntry(if k in m.children then m.children[k] else n.children[k], depth - 1);
    assert ([k] + rest)[1..] == rest;
    assert Lookup(m, [k] + rest) == Lookup(n, [k] + rest);
    forall q: Path | |q| == depth - 1
      ensures Lookup(m.children[k], q) == Lookup(n.children[k], q)
    {
      assert ([k] + q)[1..] == q;
      assert Lookup(m, [k] + q) == Lookup(n, [k] + q);
    }
  }

  // ---------------------------------------------------------------- sources

  /** `keys` fixes the path of a source when it is made; `alive` are the sources somebody
      still holds. */
  datatype State = State(root: Node, keys: map<Id, Path>, alive: set<Id>, registered: set<Id>)

  datatype Step =
    | Make(id: Id, path: Path)
    | Regist(id: Id)
    | Expire(id: Id)          // the last reference goes; the destructor runs later
    | Destroy(id: Id)         // the destructor's unregist

  function Start(): State {
    State(Level(map[]), map[], {}, {})
  }

  predicate Complete(path: Path) {
    |path| == DEPTH && forall i | 0 <= i < |path| :: path[i] != ""
  }

  predicate Enabled(s: State, e: Step) {
    match e
    case Make(id, path) => id !in s.keys && Complete(path)
    case Regist(id) => id in s.alive
    case Expire(id) => id in s.alive
    case Destroy(id) => id in s.keys && id !in s.alive
  }

  ghost predicate Tied(s: State) {
    && Shaped(s.root, DEPTH)
    && s.alive <= s.keys.Keys && s.registered <= s.keys.Keys
    && (forall id | id in s.keys :: Complete(s.keys[id]))
    && (forall q: Path | |q| == DEPTH && Lookup(s.root, q).Some? ::
         var id := Lookup(s.root, q).value;
         id in s.keys && s.keys[id] == q && (id in s.alive ==> id in s.registered))
    && (forall id | id in s.registered && id in s.alive :: Lookup(s.root, s.keys[id]) == Some(id))
  }

  /** Whether `regist` throws: another live source has the path. */
  predicate TakenByOther(s: State, id: Id)
    requires id in s.keys && Complete(s.keys[id]) && Shaped(s.root, DEPTH)
  {
    var entry := Lookup(s.root, s.keys[id]);
    entry.Some? && entry.value in s.alive && entry.value != id
  }

  function Apply(s: State, e: Step): State
    requires Tied(s) && Enabled(s, e)
  {
    match e
    case Make(id, path) => s.(keys := s.keys[id := path], alive := s.alive + {id})
    case Regist(id) =>
      if TakenByOther(s, id) || Lookup(s.root, s.keys[id]) == Some(id) then s
      else s.(root := Insert(s.root, s.keys[id], id), registered := s.registered + {id})
    case Expire(id) => s.(alive := s.alive - {id})
    case Destroy(id) => s.(root := Erase(s.root, s.keys[id], id, s.alive), registered := s.registered - {id})
  }

  /** `find`: the source, if it is still alive, and whether there is an entry. */
  function Find(s: State, path: Path): Option<(Option<Id>, bool)>
    requires |path| == DEPTH && Shaped(s.root, DEPTH)
  {
    if !Complete(path) then None
    else
      var entry := Lookup(s.root, path);
      Some((if entry.Some? && entry.value in s.alive then entry else None, entry.Some?))
  }

  lemma StepTied(s: State, e: Step)
    requires Tied(s) && Enabled(s, e)
    ensures Tied(Apply(s, e))
  {
    hide Lookup, Insert, Erase, Shaped;
    var t := Apply(s, e);
    match e
    case Regist(id) =>
      if !(TakenByOther(s, id) || Lookup(s.root, s.keys[id]) == Some(id)) {
        forall q: Path | |q| == DEPTH
          ensures Lookup(t.root, q) == if q == s.keys[id] then Some(id) else Lookup(s.root, q)
        {
          InsertLookup(s.root, s.keys[id], id, q);
        }
      }
    case Destroy(id) =>
      forall q: Path | |q| == DEPTH
        ensures Lookup(t.root, q) == if q == s.keys[id] && Erasable(Lookup(s.root, q), id, s.alive) then None else Lookup(s.root, q)
      {
        EraseLookup(s.root, s.keys[id], id, s.alive, q);
      }
    case _ =>
  }

  ghost predicate Legal(run: seq<Step>)
    decreases |run|, 0
  {
    run == [] || (Legal(run[..|run| - 1]) && Enabled(After(run[..|run| - 1]), run[|run| - 1]))
  }

  /** Where a run leads; what is tied at the start stays so. */
  ghost function After(run: seq<Step>): (s: State)
    requires Legal(run)
    ensures Tied(s)
    decreases |run|, 1
  {
    if run == [] then Start()
    else
      var t := After(run[..|run| - 1]);
      StepTied(t, run[|run| - 1]);
      Apply(t, run[|run| - 1])
  }

  /** What each step does to each source and to each path: a source is there from when it is
      made, alive until its last reference goes, and registered from a successful `regist` to its
      destructor. */
  lemma StepChanges(s: State, e: Step, id: Id, path: Path)
    requires Tied(s) && Enabled(s, e) && |path| == DEPTH
    ensures var t := Apply(s, e);
            && Tied(t)
            && (id in t.keys <==> id in s.keys || (e.Make? && e.id == id))
            && (id in s.keys ==> t.keys[id] == s.keys[id]) && (e.Make? && e.id == id ==> t.keys[id] == e.path)
            && (id in t.alive <==> (id in s.alive || (e.Make? && e.id == id)) && e != Expire(id))
            && (id in t.registered <==> (id in s.registered || (e == Regist(id) && !TakenByOther(s, id))) && e != Destroy(id))
            && Lookup(t.root, path) == (match e
                                        case Regist(r) =>
                                          if path == s.keys[r] && !TakenByOther(s, r) then Some(r) else Lookup(s.root, path)
                                        case Destroy(r) =>
                                          if path == s.keys[r] && Erasable(Lookup(s.root, path), r, s.alive) then None
                                          else Lookup(s.root, path)
                                        case _ => Lookup(s.root, path))
  {
    hide Shaped, Lookup, Insert, Erase;
    StepTied(s, e);
    match e
    case Regist(r) => InsertLookup(s.root, s.keys[r], r, path);
    case Destroy(r) => EraseLookup(s.root, s.keys[r], r, s.alive, path);
    case _ =>
  }


  /** Main result: in every run the sources that are alive are those that were made and whose
      last reference has not gone, each under the path it was made with. */
  lemma {:induction false} AliveIff(run: seq<Step>, id: Id)
    requires Legal(run)
    ensures var s := After(run);
            && (id in s.alive <==> id in s.keys && Expire(id) !in run)
            && (id in s.keys <==> exists i :: 0 <= i < |run| && run[i].Make? && run[i].id == id)
            && (id in s.keys ==> Make(id, s.keys[id]) in run)
            && (Expire(id) in run ==> id in s.keys)
    decreases |run|
  {
    hide Tied, Apply, Enabled, Lookup;
    if run != [] {
      var before, e := run[..|run| - 1], run[|run| - 1];
      AliveIff(before, id);
      assert run == before + [e];
      StepLives(After(before), e, id);
      if id in After(before).keys {
        var i :| 0 <= i < |before| && before[i].Make? && before[i].id == id;
        assert run[i] == before[i];
      }
      if i :| 0 <= i < |run| && run[i].Make? && run[i].id == id {
        assert i < |before| ==> before[i] == run[i];
      }
    }
  }

  lemma StepLives(s: State, e: Step, id: Id)
    requires Tied(s) && Enabled(s, e)
    ensures var t := Apply(s, e);
            && (id in t.keys <==> id in s.keys || (e.Make? && e.id == id))
            && (id in s.keys ==> t.keys[id] == s.keys[id]) && (e.Make? && e.id == id ==> t.keys[id] == e.path && id in t.alive)
            && (id in t.alive <==> (id in s.alive || (e.Make? && e.id == id)) && e != Expire(id))
            && (e.Make? && e.id == id ==> id !in s.keys)
            && (e == Expire(id) ==> id in s.keys)
  {
    hide Shaped, Lookup;
  }

  /** A live source holds its path. */
  predicate Holds(s: State, id: Id, path: Path) {
    id in s.keys && s.keys[id] == path && id in s.alive && id in s.registered
  }

  /** Main result: in every run `find` returns a source exactly when it is live and
      registered under the path, and there is never more than one. */
  lemma FindIffRegistered(run: seq<Step>, path: Path, id: Id)
    requires Legal(run) && Complete(path)
    ensures var s := After(run);
            && Find(s, path).Some? && (Find(s, path).value.0 == Some(id) <==> Holds(s, id, path))
            && (Find(s, path).value.1 <==> Lookup(s.root, path).Some?)
            && forall other | Holds(s, id, path) && Holds(s, other, path) :: other == id
  {
    hide Lookup, Shaped, Legal, After;
  }

  /** `regist` makes the source the holder of its path exactly when no other live source is,
      and leaves every other path alone. */
  lemma RegistIff(s: State, id: Id, path: Path)
    requires Tied(s) && Enabled(s, Regist(id)) && Complete(path)
    ensures var t := Apply(s, Regist(id));
            && Tied(t)
            && (Holds(t, id, s.keys[id]) <==> forall other | Holds(s, other, s.keys[id]) :: other == id)
            && (path != s.keys[id] ==> Lookup(t.root, path) == Lookup(s.root, path))
  {
    StepTied(s, Regist(id));
    InsertLookup(s.root, s.keys[id], id, path);
    hide Lookup, Insert, Shaped;
    if TakenByOther(s, id) {
      assert Holds(s, Lookup(s.root, s.keys[id]).value, s.keys[id]);
    }
  }

  // ---------------------------------------------------------------- the registry itself

  class SourceRegistry {
    var root: Node
    var keys: map<Id, Path>
    var alive: set<Id>
    var registered: set<Id>

    function View(): State
      reads this
    {
      State(root, keys, alive, registered)
    }

    constructor ()
      ensures View() == Start() && Tied(View())
    {
      root, keys, alive, registered := Level(map[]), map[], {}, {};
    }

    /** A source is made; without a complete path the constructor throws. */
    method MakeSource(id: Id, path: Path) returns (ok: bool)
      requires Tied(View()) && id !in keys && |path| == DEPTH
      modifies this
      ensures Tied(View()) && ok == Complete(path)
      ensures View() == if ok then Apply(old(View()), Make(id, path)) else old(View())
    {
      hide Lookup, Shaped;
      if path[0] == "" || path[1] == "" || path[2] == "" || path[3] == "" {
        return false;
      }
      StepTied(View(), Make(id, path));
      keys, alive := keys[id := path], alive + {id};
      ok := true;
    }

    /** False when the exception is thrown. */
    method RegistSource(id: Id) returns (ok: bool)
      requires Tied(View()) && id in alive
      modifies this
      ensures View() == Apply(old(View()), Regist(id)) && Tied(View())
      ensures ok == (id in registered)
    {
      hide Lookup, Shaped, Insert;
      StepTied(View(), Regist(id));
      var path := keys[id];
      var entry := Lookup(root, path);
      if entry.Some? && entry.value in alive {
        return entry.value == id;
      }
      root := Insert(root, path, id);
      registered := registered + {id};
      ok := true;
    }

    method ReleaseSource(id: Id)
      requires Tied(View()) && id in alive
      modifies this
      ensures View() == Apply(old(View()), Expire(id)) && Tied(View())
    {
      hide Lookup, Shaped;
      StepTied(View(), Expire(id));
      alive := alive - {id};
    }

    /** `unregist`, from the destructor. */
    method UnregistSource(id: Id)
      requires Tied(View()) && id in keys && id !in alive
      modifies this
      ensures View() == Apply(old(View()), Destroy(id)) && Tied(View())
    {
      hide Lookup, Shaped, Erase;
      StepTied(View(), Destroy(id));
      root := Erase(root, keys[id], id, alive);
      registered := registered - {id};
    }

    /** Level by level, as far as there are entries. */
    method FindSource(path: Path) returns (r: Option<(Option<Id>, bool)>)
      requires Tied(View()) && |path| == DEPTH
      ensures r == Find(View(), path)
    {
      hide Lookup;
      if path[0] == "" || path[1] == "" || path[2] == "" || path[3] == "" {
        return None;
      }
      LookupStep(root, path);
      if path[0] !in root.children {
        return Some((None, false));
      }
      var vhosts := root.children[path[0]];
      LookupStep(vhosts, path[1..]);
      if path[1] !in vhosts.children {
        return Some((None, false));
      }
      var apps := vhosts.children[path[1]];
      LookupStep(apps, path[1..][1..]);
      if path[2] !in apps.children {
        return Some((None, false));
      }
      var streams := apps.children[path[2]];
      LookupStep(streams, path[1..][1..][1..]);
      if path[3] !in streams.children {
        return Some((None, false));
      }
      var weak := streams.children[path[3]];
      LookupStep(weak, path[1..][1..][1..][1..]);
      r := Some((if weak.id in alive then Some(weak.id) else None, true));
    }
  }

  lemma LookupStep(n: Node, path: Path)
    requires Shaped(n, |path|)
    ensures Lookup(n, path) == if path == [] then Some(n.id)
                               else if path[0] in n.children then Lookup(n.children[path[0]], path[1..]) else None
  {
  }
}
