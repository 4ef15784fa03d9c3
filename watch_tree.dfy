/**
 * The recursive watcher: one inotify watch per directory of a tree, kept
 * in step with the tree as directories are created, moved in, moved out,
 * deleted and unmounted, and every raw event turned into one carrying the
 * path of its directory relative to the root.
 */
module RecursiveINotify {
  import opened Wrappers
  import opened InotifyFlags
  import opened NotifyEvents
  import opened Paths
  import opened INotifySource

  /** What subscribers receive: the raw event with its directory relative to the root. */
  datatype RecursiveNotifyEvent = RecursiveNotifyEvent(mask: U32, cookie: U32, path: string, name: string)

  /** The combined masks the handler tests for (the bits are disjoint, so | is +). */
  const MOVED_FROM_DIR: U32 := MOVED_FROM + ISDIR
  const MOVED_TO_DIR: U32 := MOVED_TO + ISDIR
  const CREATE_DIR: U32 := CREATE + ISDIR

  /** makeRecursive: mask, cookie and name are carried over unchanged. */
  function MakeRecursive(ne: NotifyEvent, path: string): (r: RecursiveNotifyEvent)
    ensures r.mask == ne.mask && r.cookie == ne.cookie && r.name == ne.name && r.path == path
  {
    RecursiveNotifyEvent(ne.mask, ne.cookie, path, ne.name)
  }

  /** A mask that asks the handler to watch a new subtree. */
  predicate NewSubtree(mask: U32) {
    mask == CREATE_DIR || mask == MOVED_TO_DIR
  }

  // ---------------------------------------------------------------------
  // Choosing the directories to watch

  /** One entry of the recursive directory listing. */
  datatype DirEntry = DirEntry(path: Path, isDir: bool)

  /** Some skip pattern occurs in the path's string. */
  predicate Skipped(d: Path, skip: seq<string>) {
    exists i :: 0 <= i < |skip| && Contains(PathString(d), skip[i])
  }

  /** The directories of a listing that no skip pattern excludes, in listing order. */
  function Kept(es: seq<DirEntry>, skip: seq<string>): seq<Path> {
    if es == [] then []
    else
      var last := es[|es| - 1];
      Kept(es[..|es| - 1], skip) + if last.isDir && !Skipped(last.path, skip) then [last.path] else []
  }

  /**
   * Kept is the filter: no kept directory matches a pattern, every listed
   * directory that matches none is kept, and every kept path is a listed
   * directory.
   */
  lemma {:induction false} KeptSpec(es: seq<DirEntry>, skip: seq<string>)
    ensures forall j :: 0 <= j < |Kept(es, skip)| ==> !Skipped(Kept(es, skip)[j], skip)
    ensures forall i :: 0 <= i < |es| && es[i].isDir && !Skipped(es[i].path, skip) ==> es[i].path in Kept(es, skip)
    ensures forall j :: 0 <= j < |Kept(es, skip)| ==>
      exists i :: 0 <= i < |es| && es[i].isDir && es[i].path == Kept(es, skip)[j]
  {
    if es != [] {
      var es' := es[..|es| - 1];
      KeptSpec(es', skip);
      assert forall i :: 0 <= i < |es'| ==> es'[i] == es[i];
      var k, k' := Kept(es, skip), Kept(es', skip);
      var last := es[|es| - 1];
      assert k == k' + if last.isDir && !Skipped(last.path, skip) then [last.path] else [];
      forall j | 0 <= j < |k|
        ensures exists i :: 0 <= i < |es| && es[i].isDir && es[i].path == k[j]
      {
        if j < |k'| {
          var i :| 0 <= i < |es'| && es'[i].isDir && es'[i].path == k'[j];
          assert es[i] == es'[i] && k[j] == k'[j];
        } else {
          assert last.isDir && last.path == k[j];
        }
      }
      assert forall j :: 0 <= j < |k| ==> exists i :: 0 <= i < |es| && es[i].isDir && es[i].path == k[j];
    } else {
      assert Kept(es, skip) == [];
    }
  }

  lemma {:induction false} KeptBelow(es: seq<DirEntry>, skip: seq<string>, path: Path)
    requires forall i :: 0 <= i < |es| ==> StrictlyBelow(path, es[i].path)
    ensures forall j :: 0 <= j < |Kept(es, skip)| ==> StrictlyBelow(path, Kept(es, skip)[j])
  {
    if es != [] {
      var es' := es[..|es| - 1];
      assert forall i :: 0 <= i < |es'| ==> es'[i] == es[i];
      KeptBelow(es', skip, path);
    }
  }

  /** The directories monitorDirRecursively watches: the start directory, then the kept ones. */
  function Children(start: Path, es: seq<DirEntry>, skip: seq<string>): seq<Path> {
    [start] + Kept(es, skip)
  }

  /**
   * A skipped directory's subtree is never picked up by the listing: only
   * the start directory itself can lie inside it.
   */
  lemma SkippedSubtreeNotListed(start: Path, es: seq<DirEntry>, skip: seq<string>, a: Path)
    requires Skipped(a, skip)
    ensures forall j :: 1 <= j < |Children(start, es, skip)| ==> !Below(a, Children(start, es, skip)[j])
  {
    var ch := Children(start, es, skip);
    KeptSpec(es, skip);
    forall j | 1 <= j < |ch| && Below(a, ch[j])
      ensures false
    {
      assert ch[j] == Kept(es, skip)[j - 1];
      var i :| 0 <= i < |skip| && Contains(PathString(a), skip[i]);
      PatternInherited(a, ch[j], skip[i]);
    }
  }

  /** Everything monitorDirRecursively watches lies under the root. */
  lemma ChildrenBelow(root: Path, path: Path, es: seq<DirEntry>, skip: seq<string>)
    requires Below(root, path)
    requires forall i :: 0 <= i < |es| ==> StrictlyBelow(path, es[i].path)
    ensures forall j :: 0 <= j < |Children(path, es, skip)| ==> Below(root, Children(path, es, skip)[j])
  {
    var ch := Children(path, es, skip);
    KeptBelow(es, skip, path);
    forall j | 0 <= j < |ch|
      ensures Below(root, ch[j])
    {
      if j > 0 {
        assert ch[j] == Kept(es, skip)[j - 1];
        BelowTransitive(root, path, ch[j]);
      }
    }
  }

  /** The position of the first refused path, or |ch| when there is none. */
  function FirstRefused(ch: seq<Path>, refused: set<Path>): (k: nat)
    ensures k <= |ch|
    ensures forall j :: 0 <= j < k ==> ch[j] !in refused
    ensures k < |ch| ==> ch[k] in refused
  {
    if ch == [] || ch[0] in refused then 0 else 1 + FirstRefused(ch[1..], refused)
  }

  lemma FirstRefusedAt(ch: seq<Path>, refused: set<Path>, i: nat)
    requires i <= |ch| && (i < |ch| ==> ch[i] in refused)
    requires forall j :: 0 <= j < i ==> ch[j] !in refused
    ensures FirstRefused(ch, refused) == i
  {
  }

  /** Descriptors start, start+1, ... given to ch in order. */
  function Fwd(ch: seq<Path>, start: int): map<int, Path> {
    if ch == [] then map[] else Fwd(ch[..|ch| - 1], start)[start + |ch| - 1 := ch[|ch| - 1]]
  }

  /** The reverse map after the same insertions (a repeated path keeps its last descriptor). */
  function Bwd(ch: seq<Path>, start: int): map<Path, int> {
    if ch == [] then map[] else Bwd(ch[..|ch| - 1], start)[ch[|ch| - 1] := start + |ch| - 1]
  }

  /** The i-th directory gets descriptor start + i, and no other descriptor is used. */
  lemma {:induction false} FwdSpec(ch: seq<Path>, start: int)
    ensures forall w :: w in Fwd(ch, start) <==> start <= w < start + |ch|
    ensures forall i :: 0 <= i < |ch| ==> Fwd(ch, start)[start + i] == ch[i]
  {
    if ch != [] {
      var ch' := ch[..|ch| - 1];
      FwdSpec(ch', start);
      assert forall i :: 0 <= i < |ch'| ==> ch'[i] == ch[i];
    }
  }

  /** Every directory is in the reverse map, with a descriptor it was given. */
  lemma {:induction false} BwdSpec(ch: seq<Path>, start: int)
    ensures forall p :: p in Bwd(ch, start) <==> p in ch
    ensures forall p :: p in Bwd(ch, start) ==>
      start <= Bwd(ch, start)[p] < start + |ch| && ch[Bwd(ch, start)[p] - start] == p
  {
    if ch != [] {
      var ch', last := ch[..|ch| - 1], ch[|ch| - 1];
      BwdSpec(ch', start);
      assert ch == ch' + [last];
      var b, b' := Bwd(ch, start), Bwd(ch', start);
      assert b == b'[last := start + |ch| - 1];
      forall p
        ensures p in b <==> p in ch
      {
        assert p in ch <==> p in ch' || p == last;
      }
      forall p | p in b
        ensures start <= b[p] < start + |ch| && ch[b[p] - start] == p
      {
        if p != last {
          assert b[p] == b'[p];
          assert ch[b[p] - start] == ch'[b[p] - start];
        }
      }
    }
  }

  /** After all insertions, each directory's descriptor leads back to it. */
  lemma AllRecorded(pm0: map<int, Path>, rm0: map<Path, int>, ch: seq<Path>, start: int)
    ensures forall p :: p in ch ==>
      p in rm0 + Bwd(ch, start) && (rm0 + Bwd(ch, start))[p] in pm0 + Fwd(ch, start) &&
      (pm0 + Fwd(ch, start))[(rm0 + Bwd(ch, start))[p]] == p
  {
    FwdSpec(ch, start);
    BwdSpec(ch, start);
    forall p | p in ch
      ensures (pm0 + Fwd(ch, start))[Bwd(ch, start)[p]] == p
    {
      var w := Bwd(ch, start)[p];
      assert Fwd(ch, start)[start + (w - start)] == ch[w - start];
    }
  }

  lemma FwdStep(ch: seq<Path>, i: nat, start: int)
    requires i < |ch|
    ensures Fwd(ch[..i + 1], start) == Fwd(ch[..i], start)[start + i := ch[i]]
    ensures Bwd(ch[..i + 1], start) == Bwd(ch[..i], start)[ch[i] := start + i]
  {
    assert ch[..i + 1][..i] == ch[..i];
  }

  lemma MapsStep(pm0: map<int, Path>, rm0: map<Path, int>, pm: map<int, Path>, rm: map<Path, int>,
                 ch: seq<Path>, i: nat, start: int)
    requires i < |ch| && pm == pm0 + Fwd(ch[..i], start) && rm == rm0 + Bwd(ch[..i], start)
    ensures pm[start + i := ch[i]] == pm0 + Fwd(ch[..i + 1], start)
    ensures rm[ch[i] := start + i] == rm0 + Bwd(ch[..i + 1], start)
  {
    FwdMapStep(pm0, pm, ch, i, start);
    BwdMapStep(rm0, rm, ch, i, start);
  }

  lemma FwdMapStep(pm0: map<int, Path>, pm: map<int, Path>, ch: seq<Path>, i: nat, start: int)
    requires i < |ch| && pm == pm0 + Fwd(ch[..i], start)
    ensures pm[start + i := ch[i]] == pm0 + Fwd(ch[..i + 1], start)
  {
    FwdStep(ch, i, start);
    UpdateUnion(pm0, Fwd(ch[..i], start), start + i, ch[i]);
  }

  lemma BwdMapStep(rm0: map<Path, int>, rm: map<Path, int>, ch: seq<Path>, i: nat, start: int)
    requires i < |ch| && rm == rm0 + Bwd(ch[..i], start)
    ensures rm[ch[i] := start + i] == rm0 + Bwd(ch[..i + 1], start)
  {
    FwdStep(ch, i, start);
    UpdateUnion(rm0, Bwd(ch[..i], start), ch[i], start + i);
  }

  /** One more directory watched: the maps, the live set and the unwatched rest advance by one. */
  lemma WatchedStep(ch: seq<Path>, i: nat, start: int, pm0: map<int, Path>, rm0: map<Path, int>, live0: set<int>,
                    isNew: bool, pm: map<int, Path>, rm: map<Path, int>, live: set<int>)
    requires i < |ch|
    requires pm == pm0 + Fwd(ch[..i], start) && rm == rm0 + Bwd(ch[..i], start)
    requires forall w :: w in live <==> w in live0 || start <= w < start + i
    requires isNew ==> Distinct(ch) && forall j :: i <= j < |ch| ==> ch[j] !in rm
    ensures pm[start + i := ch[i]] == pm0 + Fwd(ch[..i + 1], start)
    ensures rm[ch[i] := start + i] == rm0 + Bwd(ch[..i + 1], start)
    ensures forall w :: w in live + {start + i} <==> w in live0 || start <= w < start + i + 1
    ensures isNew ==> forall j :: i + 1 <= j < |ch| ==> ch[j] !in rm[ch[i] := start + i]
  {
    MapsStep(pm0, rm0, pm, rm, ch, i, start);
  }

  /** Maps whose reverse entries point back at their paths. */
  ghost predicate Consistent(pm: map<int, Path>, rm: map<Path, int>) {
    forall q :: q in rm ==> rm[q] in pm && pm[rm[q]] == q
  }

  /** The maps are each other's inverse. */
  ghost predicate Inverted(pm: map<int, Path>, rm: map<Path, int>) {
    forall w :: w in pm ==> pm[w] in rm && rm[pm[w]] == w
  }

  /** A sweep stopped part way leaves consistent maps. */
  lemma SweepPartial(pm0: map<int, Path>, rm0: map<Path, int>, done: set<int>, gone: set<Path>)
    requires Consistent(pm0, rm0) && done <= pm0.Keys
    requires forall w :: w in done ==> pm0[w] in gone
    ensures Consistent(pm0 - done, rm0 - gone)
  {
    forall q | q in rm0 - gone
      ensures (rm0 - gone)[q] in pm0 - done
    {
      assert rm0[q] in pm0 && pm0[rm0[q]] == q;
      NotSwept(pm0, done, gone, rm0[q]);
    }
  }

  lemma NotSwept(pm0: map<int, Path>, done: set<int>, gone: set<Path>, h: int)
    requires done <= pm0.Keys && forall w :: w in done ==> pm0[w] in gone
    requires h in pm0 && pm0[h] !in gone
    ensures h !in done
  {
  }

  /**
   * Once the sweep has visited every descriptor, erasing the directory's
   * own pair leaves exactly what lies outside its subtree, still
   * consistent, and inverse if the maps were.
   */
  lemma SweepComplete(pm0: map<int, Path>, rm0: map<Path, int>, done: set<int>, gone: set<Path>, wd: int, P: Path)
    requires wd in pm0 && pm0[wd] == P && wd !in done && done <= pm0.Keys
    requires Consistent(pm0, rm0)
    requires forall w :: w in pm0 ==> (w in done <==> w != wd && Below(P, pm0[w]))
    requires forall q :: q in gone ==> Below(P, q)
    requires forall w :: w in done ==> pm0[w] in gone
    ensures (pm0 - done) - {wd} == OutsideW(pm0, P)
    ensures (rm0 - gone) - {P} == OutsideP(rm0, P)
    ensures Consistent(OutsideW(pm0, P), OutsideP(rm0, P))
    ensures Inverted(pm0, rm0) ==> Inverted(OutsideW(pm0, P), OutsideP(rm0, P))
  {
    assert Below(P, P);
    forall w | w in pm0
      ensures w in (pm0 - done) - {wd} <==> !Below(P, pm0[w])
    {
    }
    forall q | q in rm0 && Below(P, q)
      ensures q in gone || q == P
    {
      var h := rm0[q];
      assert h in pm0 && pm0[h] == q;
    }
  }

  /** Some element of a non-empty set: the next key of an unordered_map walk. */
  method Pick(s: set<int>) returns (x: int)
    requires s != {}
    ensures x in s
  {
    NonEmptyHasMember(s);
    x :| x in s;
  }

  lemma NonEmptyHasMember(s: set<int>)
    requires s != {}
    ensures exists x :: x in s
  {
    if forall x :: x !in s {
      assert false;
    }
  }

  lemma UpdateUnion<K, V>(a: map<K, V>, b: map<K, V>, k: K, v: V)
    ensures (a + b)[k := v] == a + b[k := v]
  {
  }

  /** No two positions of ch hold the same value. */
  predicate Distinct<T(==)>(ch: seq<T>) {
    forall i, j :: 0 <= i < j < |ch| ==> ch[i] != ch[j]
  }

  /** Entries of a descriptor map whose path lies outside the subtree of P. */
  function OutsideW(m: map<int, Path>, P: Path): (r: map<int, Path>)
    ensures forall w :: w in r <==> w in m && !Below(P, m[w])
    ensures forall w :: w in r ==> r[w] == m[w]
  {
    map w | w in m && !Below(P, m[w]) :: m[w]
  }

  /** Entries of a path map whose path lies outside the subtree of P. */
  function OutsideP(m: map<Path, int>, P: Path): (r: map<Path, int>)
    ensures forall q :: q in r <==> q in m && !Below(P, q)
    ensures forall q :: q in r ==> r[q] == m[q]
  {
    map q | q in m && !Below(P, q) :: m[q]
  }

  /**
   * fs::relative's string fallback (safe_relative_path): the lexical result
   * when fs::relative succeeds; otherwise, for a path that no longer exists
   * and whose string starts with the base's, the rest of the string after
   * the base and one separator; otherwise an error. Cutting past the end of
   * the string is undefined in the source, so the caller must not ask for it.
   */
  function SafeRelativePath(p: string, base: string, relative: Option<string>, pExists: bool): (r: Option<string>)
    requires relative.None? && !pExists && IsStrPrefix(base, p) ==> |p| > |base|
    ensures relative.Some? ==> r == relative
    ensures relative.None? ==> (r.Some? <==> !pExists && IsStrPrefix(base, p))
    ensures relative.None? && r.Some? ==> p == base + [p[|base|]] + r.value
  {
    if relative.Some? then relative
    else if !pExists && IsStrPrefix(base, p) then
      assert p == p[..|base|] + [p[|base|]] + p[|base| + 1..];
      Some(p[|base| + 1..])
    else None
  }

  /** The fallback undoes joining the base, a '/' and a relative path. */
  lemma FallbackInvertsJoin(base: string, rel: string)
    ensures SafeRelativePath(base + "/" + rel, base, None, false) == Some(rel)
  {
    var p := base + "/" + rel;
    assert p[..|base|] == base;
    assert p[|base| + 1..] == rel;
  }

  // ---------------------------------------------------------------------
  // enterMovedFrom's lookup, as written and as intended

  datatype LookupError = WatchNotFound(path: Path)

  /**
   * The descriptor enterMovedFrom looks up for a directory moved out of a
   * watched one. As written, a directory without a watch is a failed
   * assertion (and a dereferenced end iterator when asserts are compiled out).
   */
  function MovedFromWatchAsWritten(rPathMap: map<Path, int>, path: Path): (r: Result<int, LookupError>)
    ensures r.Success? <==> path in rPathMap
    ensures r.Success? ==> r.value == rPathMap[path]
  {
    if path in rPathMap then Success(rPathMap[path]) else Failure(WatchNotFound(path))
  }

  /** The intended lookup: a directory that has no watch has nothing to tear down. */
  function MovedFromWatch(rPathMap: map<Path, int>, path: Path): (r: Option<int>)
    ensures r.Some? <==> path in rPathMap
    ensures r.Some? ==> r.value == rPathMap[path]
  {
    if path in rPathMap then Some(rPathMap[path]) else None
  }

  /**
   * The erase-while-iterating loop of completeMovedFrom, on copies of the
   * two maps: every watch strictly inside P, visited in an arbitrary order,
   * is removed from the notifier and dropped from both maps.  A failing
   * removal stops the loop with the maps swept so far.
   */
  method SweepSubtree(notifier: Notifier, pm0: map<int, Path>, rm0: map<Path, int>, wd: int, P: Path)
    returns (pm: map<int, Path>, rm: map<Path, int>, o: Outcome<NotifyError>,
             ghost done: set<int>, ghost gone: set<Path>, ghost swept: seq<int>)
    requires notifier.Valid() && wd in pm0 && pm0[wd] == P
    modifies notifier
    ensures notifier.Valid() && notifier.nextWd == old(notifier.nextWd)
    ensures notifier.live <= old(notifier.live)
    ensures pm == pm0 - done && rm == rm0 - gone
    ensures done <= pm0.Keys && wd !in done
    ensures forall w :: w in done ==> Below(P, pm0[w]) && pm0[w] in gone
    ensures forall q :: q in gone ==> Below(P, q)
    ensures o.Pass? ==> forall w :: w in pm0 ==> (w in done <==> w != wd && Below(P, pm0[w]))
    ensures notifier.removals == old(notifier.removals) + swept && Distinct(swept)
    ensures forall w :: w in swept ==> w in pm0 && w != wd && Below(P, pm0[w])
    ensures o.Pass? ==> forall w :: w in swept <==> w in done
    ensures notifier.live == old(notifier.live) - done
    ensures o.Pass? <==> SubtreeWatches(pm0, P) - {wd} <= old(notifier.live)
  {
    done, gone, swept := {}, {}, [];
    pm, rm := pm0, rm0;
    o := Pass;
    var todo := pm.Keys;
    while todo != {}
      invariant notifier.Valid() && notifier.nextWd == old(notifier.nextWd)
      invariant notifier.live == old(notifier.live) - done && done <= old(notifier.live)
      invariant o == Pass
      invariant todo <= pm0.Keys && done <= pm0.Keys && todo !! done && wd !in done
      invariant forall w :: w in pm0 && w !in todo ==> (w in done <==> w != wd && Below(P, pm0[w]))
      invariant forall w :: w in done ==> Below(P, pm0[w])
      invariant pm == pm0 - done && rm == rm0 - gone
      invariant forall q :: q in gone ==> Below(P, q)
      invariant forall w :: w in done ==> pm0[w] in gone
      invariant notifier.removals == old(notifier.removals) + swept
      invariant forall w :: w in swept <==> w in done
      invariant Distinct(swept)
      decreases todo
    {
      var w := Pick(todo);
      todo := todo - {w};
      if w != wd && Below(P, pm[w]) {
        var q := pm[w];
        o := notifier.RemoveWatch(w);
        if o.Fail? {
          swept := swept + [w];
          assert w in SubtreeWatches(pm0, P) - {wd} && w !in old(notifier.live);
          return;
        }
        rm := rm - {q};
        pm := pm - {w};
        done := done + {w};
        gone := gone + {q};
        swept := swept + [w];
      }
    }
  }

  /**
   * A directory matching a skip pattern is never watched, so moving it out
   * of the root sends enterMovedFrom a path it cannot find: after watching
   * /r with skip pattern "ignore.d" and a listing holding /r/ignore.d, the
   * IN_MOVED_FROM|IN_ISDIR event for "ignore.d" on /r fails the lookup as
   * written, and the intended lookup finds nothing to do.
   */
  lemma SkippedDirMovedOut()
    ensures var skip := ["ignore.d"];
            var ch := Children(["r"], [DirEntry(["r", "ignore.d"], true)], skip);
            ch == [["r"]]
            && MovedFromWatchAsWritten(Bwd(ch, 1), ["r", "ignore.d"]).Failure?
            && MovedFromWatch(Bwd(ch, 1), ["r", "ignore.d"]) == None
  {
    var skip := ["ignore.d"];
    var d: Path := ["r", "ignore.d"];
    assert PathString(d) == "/r/ignore.d";
    assert OccursAt(PathString(d), skip[0], 3);
    assert Skipped(d, skip);
    var es := [DirEntry(d, true)];
    assert es[..0] == [];
    assert Kept(es, skip) == [];
    var ch := Children(["r"], es, skip);
    assert ch == [["r"]];
    assert d !in ch;
  }

  // ---------------------------------------------------------------------
  // completeMovedFrom's teardown, as written and as intended

  /** The descriptors whose directory lies in the subtree of P. */
  function SubtreeWatches(pm: map<int, Path>, P: Path): (s: set<int>)
    ensures forall w :: w in s <==> w in pm && Below(P, pm[w])
  {
    set w | w in pm && Below(P, pm[w])
  }

  /**
   * The intended teardown: forget exactly the descriptors that were in the
   * subtree when it was moved out, and the reverse entries still pointing
   * at them; a path watched again since keeps its new watch.
   */
  function ForgetWatches(pm: map<int, Path>, rm: map<Path, int>, stale: set<int>): (r: (map<int, Path>, map<Path, int>))
    ensures forall w :: w in r.0 <==> w in pm && w !in stale
    ensures forall w :: w in r.0 ==> r.0[w] == pm[w]
    ensures forall q :: q in r.1 <==> q in rm && rm[q] !in stale
    ensures forall q :: q in r.1 ==> r.1[q] == rm[q]
    ensures Consistent(pm, rm) ==> Consistent(r.0, r.1)
  {
    (map w | w in pm && w !in stale :: pm[w], map q | q in rm && rm[q] !in stale :: rm[q])
  }

  /**
   * When nothing was watched in the subtree since the move-out, the
   * intended teardown is exactly the one the source performs.
   */
  lemma ForgetWatchesAgrees(pm: map<int, Path>, rm: map<Path, int>, P: Path)
    requires Consistent(pm, rm)
    ensures ForgetWatches(pm, rm, SubtreeWatches(pm, P)) == (OutsideW(pm, P), OutsideP(rm, P))
  {
    var r := ForgetWatches(pm, rm, SubtreeWatches(pm, P));
    assert r.0 == OutsideW(pm, P);
    forall q | q in rm
      ensures rm[q] in SubtreeWatches(pm, P) <==> Below(P, q)
    {
      assert pm[rm[q]] == q;
    }
    assert r.1 == OutsideP(rm, P);
  }

  /**
   * The state after /r (descriptor 1) and /r/a (descriptor 2) are watched
   * and /r/a is renamed to a sibling directory on the same filesystem and
   * back, both renames done before the watcher handles the IN_MOVED_FROM.
   * Removing descriptor 2 there queues its IN_IGNORED behind the
   * IN_MOVED_TO, so the move-in (an empty directory, no skip patterns)
   * watches /r/a again as descriptor 3 before that IN_IGNORED is read.
   */
  function MovedBackPathMap(): map<int, Path> {
    map[1 := ["r"], 2 := ["r", "a"]] + Fwd(Children(["r", "a"], [], []), 3)
  }

  function MovedBackRPathMap(): map<Path, int> {
    map[["r"] := 1, ["r", "a"] := 2] + Bwd(Children(["r", "a"], [], []), 3)
  }

  /**
   * As written, the IN_IGNORED of descriptor 2 then forgets every entry in
   * the subtree of /r/a, the new watch included: /r/a, back in the tree,
   * is left unwatched.
   */
  lemma MovedBackLosesWatch()
    ensures var pm, rm := MovedBackPathMap(), MovedBackRPathMap();
            && Consistent(pm, rm) && pm[2] == ["r", "a"]
            && ["r", "a"] in rm && rm[["r", "a"]] == 3
            && OutsideW(pm, pm[2]) == map[1 := ["r"]]
            && ["r", "a"] !in OutsideP(rm, pm[2])
  {
    var pm, rm := MovedBackPathMap(), MovedBackRPathMap();
    assert Children(["r", "a"], [], []) == [["r", "a"]];
    assert pm == map[1 := ["r"], 2 := ["r", "a"], 3 := ["r", "a"]];
    assert rm == map[["r"] := 1, ["r", "a"] := 3];
    assert !Below(["r", "a"], ["r"]);
    assert OutsideW(pm, pm[2]) == map[1 := ["r"]];
  }

  /**
   * Forgetting only the descriptors that were in the subtree at the
   * move-out keeps the new watch of /r/a, and the maps are each other's
   * inverse again.
   */
  lemma MovedBackKeepsWatch()
    ensures var pm, rm := MovedBackPathMap(), MovedBackRPathMap();
            var stale := SubtreeWatches(map[1 := ["r"], 2 := ["r", "a"]], ["r", "a"]);
            var r := ForgetWatches(pm, rm, stale);
            && stale == {2}
            && r == (map[1 := ["r"], 3 := ["r", "a"]], map[["r"] := 1, ["r", "a"] := 3])
            && Inverted(r.0, r.1)
  {
    var pm, rm := MovedBackPathMap(), MovedBackRPathMap();
    assert Children(["r", "a"], [], []) == [["r", "a"]];
    assert pm == map[1 := ["r"], 2 := ["r", "a"], 3 := ["r", "a"]];
    assert rm == map[["r"] := 1, ["r", "a"] := 3];
    var pmOut: map<int, Path> := map[1 := ["r"], 2 := ["r", "a"]];
    assert !Below(["r", "a"], ["r"]) && Below(["r", "a"], ["r", "a"]);
    assert SubtreeWatches(pmOut, ["r", "a"]) == {2};
    var r := ForgetWatches(pm, rm, {2});
    assert r.0 == map[1 := ["r"], 3 := ["r", "a"]];
    assert r.1 == map[["r"] := 1, ["r", "a"] := 3];
  }

  // ---------------------------------------------------------------------
  // The watcher

  class WatchTree {
    const root: Path
    const skip: seq<string>
    const notifier: Notifier
    var pathMap: map<int, Path>
    var rPathMap: map<Path, int>
    var ignoredPaths: set<Path>
    var beingUnmounted: set<Path>

    /**
     * Every watched directory lies under the root and has a descriptor the
     * notifier handed out; each reverse entry points to a descriptor that
     * maps back to its path.
     */
    ghost predicate Valid()
      reads this, notifier
    {
      notifier.Valid()
      && (forall w :: w in pathMap ==> w < notifier.nextWd && Below(root, pathMap[w]))
      && Consistent(pathMap, rPathMap)
    }

    /** The two maps are each other's inverse. */
    ghost predicate Inverse()
      reads this
    {
      Inverted(pathMap, rPathMap)
    }

    /** None of ch is watched yet and no path repeats. */
    ghost predicate NewDirs(ch: seq<Path>)
      reads this
    {
      Distinct(ch) && forall i :: 0 <= i < |ch| ==> ch[i] !in rPathMap
    }

    /** shallIgnorePath: the directory is, or lies below, a directory moved out. */
    predicate ShallIgnore(p: Path)
      reads this
    {
      exists ip :: ip in ignoredPaths && Below(ip, p)
    }

    /** An empty watcher over a fresh inotify instance. */
    constructor (root: Path, skip: seq<string>, refused: set<Path>)
      ensures Valid() && Inverse() && fresh(notifier)
      ensures this.root == root && this.skip == skip && notifier.refused == refused
      ensures notifier.nextWd == 1 && notifier.live == {} && notifier.removals == []
      ensures pathMap == map[] && rPathMap == map[] && ignoredPaths == {} && beingUnmounted == {}
    {
      this.root := root;
      this.skip := skip;
      notifier := new Notifier(refused);
      pathMap := map[];
      rPathMap := map[];
      ignoredPaths := {};
      beingUnmounted := {};
    }

    /**
     * monitorDirRecursively: list the directories to watch (the start
     * directory and every listed directory no skip pattern matches), then
     * watch them in order. Adding a watch fails for the first refused
     * directory; the watches added before it stay.
     */
    method MonitorDirRecursively(path: Path, es: seq<DirEntry>) returns (o: Outcome<NotifyError>)
      requires Valid() && Below(root, path)
      requires forall i :: 0 <= i < |es| ==> StrictlyBelow(path, es[i].path)
      modifies this`pathMap, this`rPathMap, notifier
      ensures Valid()
      ensures notifier.removals == old(notifier.removals)
      ensures var ch := Children(path, es, skip);
              var k := FirstRefused(ch, notifier.refused);
              && pathMap == old(pathMap) + Fwd(ch[..k], old(notifier.nextWd))
              && rPathMap == old(rPathMap) + Bwd(ch[..k], old(notifier.nextWd))
              && notifier.nextWd == old(notifier.nextWd) + k
              && o == (if k == |ch| then Pass else Fail(AddWatchFailed(ch[k])))
      ensures o.Pass? ==> forall p :: p in Children(path, es, skip) ==> p in rPathMap && pathMap[rPathMap[p]] == p
      ensures old(Inverse()) && old(NewDirs(Children(path, es, skip))) ==> Inverse()
      ensures forall w :: w in notifier.live <==> w in old(notifier.live) || old(notifier.nextWd) <= w < notifier.nextWd
    {
      var children := ListChildren(path, es);
      ChildrenBelow(root, path, es, skip);
      o := WatchChildren(children);
      if o.Pass? {
        assert children[..|children|] == children;
        AllRecorded(old(pathMap), old(rPathMap), children, old(notifier.nextWd));
      }
    }

    /**
     * The second half of monitorDirRecursively: watch the directories in
     * order, writing each into both maps, until one is refused.
     */
    method WatchChildren(children: seq<Path>) returns (o: Outcome<NotifyError>)
      requires Valid() && forall p :: p in children ==> Below(root, p)
      modifies this`pathMap, this`rPathMap, notifier
      ensures Valid()
      ensures notifier.removals == old(notifier.removals)
      ensures var k := FirstRefused(children, notifier.refused);
              && pathMap == old(pathMap) + Fwd(children[..k], old(notifier.nextWd))
              && rPathMap == old(rPathMap) + Bwd(children[..k], old(notifier.nextWd))
              && notifier.nextWd == old(notifier.nextWd) + k
              && o == (if k == |children| then Pass else Fail(AddWatchFailed(children[k])))
      ensures old(Inverse()) && old(NewDirs(children)) ==> Inverse()
      ensures forall w :: w in notifier.live <==> w in old(notifier.live) || old(notifier.nextWd) <= w < notifier.nextWd
    {
      ghost var start := notifier.nextWd;
      ghost var pm0 := pathMap;
      ghost var rm0 := rPathMap;
      ghost var isNew := Inverse() && NewDirs(children);
      var i := 0;
      assert children[..0] == [];
      assert pm0 + Fwd([], start) == pm0 && rm0 + Bwd([], start) == rm0;
      while i < |children|
        invariant Watching(children, i, start, pm0, rm0, old(notifier.live), isNew)
        invariant notifier.removals == old(notifier.removals)
        invariant forall j :: 0 <= j < i ==> children[j] !in notifier.refused
      {
        var r := WatchAt(children, i, start, pm0, rm0, old(notifier.live), isNew);
        if r.Fail? {
          FirstRefusedAt(children, notifier.refused, i);
          return r;
        }
        i := i + 1;
      }
      FirstRefusedAt(children, notifier.refused, i);
      assert children[..i] == children;
      o := Pass;
    }

    /**
     * The state of the watch loop after its first i turns: the first i
     * directories hold consecutive descriptors from start in both maps and
     * in the live set and, when the directories were new to an inverted
     * watcher, the maps stay inverted and the rest are still unwatched.
     */
    ghost predicate Watching(children: seq<Path>, i: nat, start: int, pm0: map<int, Path>, rm0: map<Path, int>,
                             live0: set<int>, isNew: bool)
      reads this, notifier
    {
      && i <= |children| && Valid()
      && (forall p :: p in children ==> Below(root, p))
      && notifier.nextWd == start + i
      && (forall w :: w in notifier.live <==> w in live0 || start <= w < start + i)
      && pathMap == pm0 + Fwd(children[..i], start)
      && rPathMap == rm0 + Bwd(children[..i], start)
      && (isNew ==> Distinct(children) && Inverse() && forall j :: i <= j < |children| ==> children[j] !in rPathMap)
    }

    /** One turn of the watch loop: watch children[i] and extend both maps by it. */
    method WatchAt(children: seq<Path>, i: nat, ghost start: int, ghost pm0: map<int, Path>, ghost rm0: map<Path, int>,
                   ghost live0: set<int>, ghost isNew: bool)
      returns (o: Outcome<NotifyError>)
      requires Watching(children, i, start, pm0, rm0, live0, isNew) && i < |children|
      modifies this`pathMap, this`rPathMap, notifier
      ensures Valid() && notifier.removals == old(notifier.removals)
      ensures o == (if children[i] in notifier.refused then Fail(AddWatchFailed(children[i])) else Pass)
      ensures o.Fail? ==> Watching(children, i, start, pm0, rm0, live0, isNew)
      ensures o.Pass? ==> Watching(children, i + 1, start, pm0, rm0, live0, isNew)
    {
      ghost var pm, rm, live := pathMap, rPathMap, notifier.live;
      o := Watch(children[i]);
      if o.Pass? {
        WatchedStep(children, i, start, pm0, rm0, live0, isNew, pm, rm, live);
      }
    }

    /** The second half's step: watch one directory and record it in both maps. */
    method Watch(p: Path) returns (o: Outcome<NotifyError>)
      requires Valid() && Below(root, p)
      modifies this`pathMap, this`rPathMap, notifier
      ensures Valid() && notifier.removals == old(notifier.removals)
      ensures p in notifier.refused ==>
        && o == Fail(AddWatchFailed(p)) && notifier.nextWd == old(notifier.nextWd)
        && notifier.live == old(notifier.live)
        && pathMap == old(pathMap) && rPathMap == old(rPathMap)
      ensures p !in notifier.refused ==>
        && o == Pass && notifier.nextWd == old(notifier.nextWd) + 1
        && notifier.live == old(notifier.live) + {old(notifier.nextWd)}
        && pathMap == old(pathMap)[old(notifier.nextWd) := p]
        && rPathMap == old(rPathMap)[p := old(notifier.nextWd)]
      ensures old(Inverse()) && p !in old(rPathMap) ==> Inverse()
    {
      var r := notifier.MonitorPath(p);
      if r.Failure? {
        return Fail(r.error);
      }
      var wd := r.value;
      pathMap := pathMap[wd := p];
      rPathMap := rPathMap[p := wd];
      o := Pass;
    }

    /** The first half of monitorDirRecursively: the directories it will watch. */
    method ListChildren(path: Path, es: seq<DirEntry>) returns (children: seq<Path>)
      ensures children == Children(path, es, skip)
    {
      children := [path];
      var i := 0;
      while i < |es|
        invariant 0 <= i <= |es|
        invariant children == [path] + Kept(es[..i], skip)
      {
        assert es[..i + 1][..i] == es[..i];
        if es[i].isDir && !Skipped(es[i].path, skip) {
          children := children + [es[i].path];
        }
        i := i + 1;
      }
      assert es[..i] == es;
    }

    /**
     * enterMovedFrom, with the intended lookup: a directory moved out of a
     * watched one is marked ignored and its watch removed; a directory with
     * no watch is left alone.
     */
    method EnterMovedFrom(path: Path) returns (o: Outcome<NotifyError>)
      requires Valid()
      modifies this`ignoredPaths, notifier
      ensures Valid() && notifier.nextWd == old(notifier.nextWd)
      ensures MovedFromWatch(rPathMap, path).None? ==>
        o == Pass && ignoredPaths == old(ignoredPaths) && unchanged(notifier)
      ensures MovedFromWatch(rPathMap, path).Some? ==>
        var wd := rPathMap[path];
        && ignoredPaths == old(ignoredPaths) + {path}
        && notifier.removals == old(notifier.removals) + [wd]
        && notifier.live == old(notifier.live) - {wd}
        && o == (if wd in old(notifier.live) then Pass else Fail(RemoveWatchFailed(wd)))
    {
      var found := MovedFromWatch(rPathMap, path);
      if found.None? {
        return Pass;
      }
      ignoredPaths := ignoredPaths + {path};
      o := notifier.RemoveWatch(found.value);
    }

    /**
     * completeMovedFrom: the IN_IGNORED of a directory's watch arrived.
     * Unmark the directory, remove the watch of every other descriptor
     * whose path lies in its subtree and forget those, then forget the
     * directory's own pair. A failing removal stops the sweep with an
     * error, the maps still consistent.
     */
    method CompleteMovedFrom(wd: int) returns (o: Outcome<NotifyError>)
      requires Valid() && wd in pathMap
      modifies this`pathMap, this`rPathMap, this`ignoredPaths, notifier
      ensures Valid() && notifier.nextWd == old(notifier.nextWd)
      ensures ignoredPaths == old(ignoredPaths) - {old(pathMap)[wd]}
      ensures notifier.live <= old(notifier.live)
      ensures pathMap.Keys <= old(pathMap).Keys && rPathMap.Keys <= old(rPathMap).Keys
      ensures o.Pass? ==> pathMap == OutsideW(old(pathMap), old(pathMap)[wd])
      ensures o.Pass? ==> rPathMap == OutsideP(old(rPathMap), old(pathMap)[wd])
      ensures o.Pass? ==>
        var P := old(pathMap)[wd];
        exists swept: seq<int> ::
        && notifier.removals == old(notifier.removals) + swept
        && (forall w :: w in swept <==> w in old(pathMap) && w != wd && Below(P, old(pathMap)[w]))
        && Distinct(swept)
      ensures o.Pass? && old(Inverse()) ==> Inverse()
      // every removal succeeds exactly when each other watch of the subtree is still live
      ensures o.Pass? <==> SubtreeWatches(old(pathMap), old(pathMap)[wd]) - {wd} <= old(notifier.live)
      ensures o.Pass? ==> notifier.live == old(notifier.live) - (SubtreeWatches(old(pathMap), old(pathMap)[wd]) - {wd})
    {
      var P := pathMap[wd];
      ignoredPaths := ignoredPaths - {P};
      ghost var done, gone, swept;
      var pm, rm;
      pm, rm, o, done, gone, swept := SweepSubtree(notifier, pathMap, rPathMap, wd, P);
      if o.Fail? {
        SweepPartial(old(pathMap), old(rPathMap), done, gone);
        pathMap, rPathMap := pm, rm;
        return;
      }
      SweepComplete(old(pathMap), old(rPathMap), done, gone, wd, P);
      rPathMap := rm - {P};
      pathMap := pm - {wd};
    }

    /** The event as published for a directory: its path relative to the root. */
    function Report(ne: NotifyEvent, dir: Path): RecursiveNotifyEvent
      requires Below(root, dir)
    {
      MakeRecursive(ne, RelString(dir[|root|..]))
    }

    /** The shared tail of handleEvent: publish unless the directory lies in an ignored subtree. */
    function PublishUnlessIgnored(ne: NotifyEvent, dir: Path): (r: Option<RecursiveNotifyEvent>)
      requires Below(root, dir)
      reads this
      ensures r.Some? <==> !ShallIgnore(dir)
      ensures r.Some? ==> r.value == Report(ne, dir)
    {
      if ShallIgnore(dir) then None else Some(Report(ne, dir))
    }

    /**
     * handleEvent: keep the watches in step with the event and decide what
     * to publish. Returns the event to publish, if any, and the error that
     * aborted the handling, if any (the source throws and its caller logs).
     * `es` is the recursive listing of the directory a create or move-in
     * event names. The source tests the whole mask against each case in
     * turn, so at most one case applies to an event; each is a method below.
     */
    method HandleEvent(ne: NotifyEvent, es: seq<DirEntry>) returns (published: Option<RecursiveNotifyEvent>, o: Outcome<NotifyError>)
      requires Valid()
      requires NewSubtree(ne.mask) && ne.wd in pathMap ==>
        forall i :: 0 <= i < |es| ==> StrictlyBelow(pathMap[ne.wd] + [ne.name], es[i].path)
      modifies this, notifier
      ensures Valid()
      ensures o.Fail? ==> published == None
      // a queue overflow is published as it is, with an empty path
      ensures ne.mask == Q_OVERFLOW ==>
        published == Some(MakeRecursive(ne, "")) && o == Pass && unchanged(this, notifier)
      // an event for a descriptor the watcher does not know is dropped
      ensures ne.mask != Q_OVERFLOW && ne.wd !in old(pathMap) ==>
        && published == None && o == Pass && unchanged(this)
        && notifier.nextWd == old(notifier.nextWd) && notifier.removals == old(notifier.removals)
        && notifier.live == old(notifier.live) - (if ne.mask == IGNORED then {ne.wd} else {})
      // the watch an IN_IGNORED reports is gone from the kernel
      ensures ne.mask == IGNORED ==> ne.wd !in notifier.live
      // whatever else is published carries the directory's path relative to the root
      ensures published.Some? && ne.mask != Q_OVERFLOW ==>
        ne.wd in old(pathMap) && published.value == Report(ne, old(pathMap)[ne.wd])
      // nothing but IN_IGNORED is published from inside an ignored subtree
      ensures ne.mask !in {Q_OVERFLOW, IGNORED} && ne.wd in old(pathMap) && ShallIgnore(old(pathMap)[ne.wd]) ==>
        published == None
      // an event of any other kind changes nothing and is published unless its directory is ignored
      ensures ne.mask !in {Q_OVERFLOW, IGNORED, UNMOUNT, MOVED_FROM_DIR, CREATE_DIR, MOVED_TO_DIR} && ne.wd in old(pathMap) ==>
        unchanged(this, notifier) && o == Pass && (published.Some? <==> !ShallIgnore(old(pathMap)[ne.wd]))
      // a directory moved out: its subtree becomes ignored and its watch is removed
      ensures ne.mask == MOVED_FROM_DIR && ne.wd in old(pathMap) ==>
        var child := old(pathMap)[ne.wd] + [ne.name];
        && pathMap == old(pathMap) && rPathMap == old(rPathMap) && beingUnmounted == old(beingUnmounted)
        && ignoredPaths == old(ignoredPaths) + (if child in old(rPathMap) then {child} else {})
        && notifier.removals == old(notifier.removals) + (if child in old(rPathMap) then [old(rPathMap)[child]] else [])
        && (child in old(rPathMap) ==> forall q :: Below(child, q) ==> ShallIgnore(q))
        && (o.Pass? ==> (published.Some? <==> !old(ShallIgnore(pathMap[ne.wd]))))
        && notifier.nextWd == old(notifier.nextWd)
        && (child !in old(rPathMap) ==> o == Pass && notifier.live == old(notifier.live))
        && (child in old(rPathMap) ==>
              var wd := old(rPathMap)[child];
              && notifier.live == old(notifier.live) - {wd}
              && o == (if wd in old(notifier.live) then Pass else Fail(RemoveWatchFailed(wd))))
      // an unmount is recorded; only the root's is published
      ensures ne.mask == UNMOUNT && ne.wd in old(pathMap) ==>
        var rel := old(pathMap)[ne.wd][|root|..];
        && beingUnmounted == old(beingUnmounted) + {rel}
        && pathMap == old(pathMap) && rPathMap == old(rPathMap) && ignoredPaths == old(ignoredPaths)
        && unchanged(notifier) && o == Pass
        && (published.Some? <==> rel == [] && !ShallIgnore(old(pathMap)[ne.wd]))
      // a directory created or moved in: its subtree is watched
      ensures NewSubtree(ne.mask) && ne.wd in old(pathMap) ==>
        var ch := Children(old(pathMap)[ne.wd] + [ne.name], es, skip);
        var k := FirstRefused(ch, notifier.refused);
        && pathMap == old(pathMap) + Fwd(ch[..k], old(notifier.nextWd))
        && rPathMap == old(rPathMap) + Bwd(ch[..k], old(notifier.nextWd))
        && ignoredPaths == old(ignoredPaths) && beingUnmounted == old(beingUnmounted)
        && notifier.removals == old(notifier.removals) && notifier.nextWd == old(notifier.nextWd) + k
        && (forall w :: w in notifier.live <==> w in old(notifier.live) || old(notifier.nextWd) <= w < notifier.nextWd)
        && o == (if k == |ch| then Pass else Fail(AddWatchFailed(ch[k])))
        && (o.Pass? ==> (published.Some? <==> !ShallIgnore(old(pathMap)[ne.wd])))
        && (old(Inverse()) && old(NewDirs(ch)) ==> Inverse())
      // the IN_IGNORED closing an unmount: forgotten, published for the root only
      ensures ne.mask == IGNORED && ne.wd in old(pathMap) && old(pathMap)[ne.wd][|root|..] in old(beingUnmounted) ==>
        var rel := old(pathMap)[ne.wd][|root|..];
        && beingUnmounted == old(beingUnmounted) - {rel}
        && pathMap == old(pathMap) && rPathMap == old(rPathMap) && ignoredPaths == old(ignoredPaths)
        && notifier.removals == old(notifier.removals) && notifier.nextWd == old(notifier.nextWd)
        && notifier.live == old(notifier.live) - {ne.wd} && o == Pass
        && (published.Some? <==> rel == [])
      // any other IN_IGNORED: the directory's subtree is forgotten and the event published
      ensures ne.mask == IGNORED && ne.wd in old(pathMap) && old(pathMap)[ne.wd][|root|..] !in old(beingUnmounted) ==>
        var P := old(pathMap)[ne.wd];
        && beingUnmounted == old(beingUnmounted)
        && ignoredPaths == old(ignoredPaths) - {P}
        && (o.Pass? ==> published.Some?)
        && (o.Pass? ==> pathMap == OutsideW(old(pathMap), P) && rPathMap == OutsideP(old(rPathMap), P))
        && (o.Pass? ==> exists swept: seq<int> ::
              && notifier.removals == old(notifier.removals) + swept
              && (forall w :: w in swept <==> w in old(pathMap) && w != ne.wd && Below(P, old(pathMap)[w]))
              && Distinct(swept))
        && (o.Pass? <==> SubtreeWatches(old(pathMap), P) - {ne.wd} <= old(notifier.live))
        && (o.Pass? ==> notifier.live == old(notifier.live) - SubtreeWatches(old(pathMap), P))
      ensures old(Inverse()) && !NewSubtree(ne.mask) && o.Pass? ==> Inverse()
    {
      if ne.mask == Q_OVERFLOW {
        return Some(MakeRecursive(ne, "")), Pass;
      }
      if ne.mask == IGNORED {
        notifier.Dropped(ne.wd);
      }
      if ne.wd !in pathMap {
        return None, Pass;
      }
      var dir := pathMap[ne.wd];
      if ne.mask == MOVED_FROM_DIR {
        published, o := OnMovedFromDir(ne, dir);
      } else if ne.mask == UNMOUNT {
        published, o := OnUnmount(ne, dir);
      } else if NewSubtree(ne.mask) {
        published, o := OnNewSubtree(ne, dir, es);
      } else if ne.mask == IGNORED {
        published, o := OnIgnored(ne, dir);
      } else {
        published, o := PublishUnlessIgnored(ne, dir), Pass;
      }
    }

    /** IN_MOVED_FROM|IN_ISDIR: enterMovedFrom on the child, then the shared tail. */
    method OnMovedFromDir(ne: NotifyEvent, dir: Path) returns (published: Option<RecursiveNotifyEvent>, o: Outcome<NotifyError>)
      requires Valid() && ne.wd in pathMap && pathMap[ne.wd] == dir
      modifies this`ignoredPaths, notifier
      ensures Valid() && (o.Fail? ==> published == None)
      ensures published.Some? ==> published.value == Report(ne, dir)
      ensures ShallIgnore(dir) ==> published == None
      ensures var child := dir + [ne.name];
        && ignoredPaths == old(ignoredPaths) + (if child in rPathMap then {child} else {})
        && notifier.removals == old(notifier.removals) + (if child in rPathMap then [rPathMap[child]] else [])
        && (child in rPathMap ==> forall q :: Below(child, q) ==> ShallIgnore(q))
        && (o.Pass? ==> (published.Some? <==> !old(ShallIgnore(dir))))
      // the moved directory's watch is removed, which fails when it is no longer live
      ensures notifier.nextWd == old(notifier.nextWd)
      ensures var child := dir + [ne.name];
        && (child !in rPathMap ==> o == Pass && unchanged(notifier))
        && (child in rPathMap ==>
              && notifier.live == old(notifier.live) - {rPathMap[child]}
              && o == (if rPathMap[child] in old(notifier.live) then Pass else Fail(RemoveWatchFailed(rPathMap[child]))))
    {
      var child := dir + [ne.name];
      o := EnterMovedFrom(child);
      if o.Fail? {
        return None, o;
      }
      if child in rPathMap {
        forall q | Below(child, q)
          ensures ShallIgnore(q)
        {
          assert child in ignoredPaths;
        }
      }
      assert !Below(child, dir);
      assert ShallIgnore(dir) == old(ShallIgnore(dir));
      published := PublishUnlessIgnored(ne, dir);
    }

    /** IN_UNMOUNT: remember the directory; only the root's falls through to the tail. */
    method OnUnmount(ne: NotifyEvent, dir: Path) returns (published: Option<RecursiveNotifyEvent>, o: Outcome<NotifyError>)
      requires Valid() && ne.wd in pathMap && pathMap[ne.wd] == dir
      modifies this`beingUnmounted
      ensures o == Pass
      ensures beingUnmounted == old(beingUnmounted) + {dir[|root|..]}
      ensures published.Some? <==> dir[|root|..] == [] && !ShallIgnore(dir)
      ensures published.Some? ==> published.value == Report(ne, dir)
    {
      var rel := dir[|root|..];
      beingUnmounted := beingUnmounted + {rel};
      if rel != [] {
        return None, Pass;
      }
      published, o := PublishUnlessIgnored(ne, dir), Pass;
    }

    /** IN_CREATE|IN_ISDIR and IN_MOVED_TO|IN_ISDIR: watch the new subtree, then the shared tail. */
    method OnNewSubtree(ne: NotifyEvent, dir: Path, es: seq<DirEntry>) returns (published: Option<RecursiveNotifyEvent>, o: Outcome<NotifyError>)
      requires Valid() && ne.wd in pathMap && pathMap[ne.wd] == dir
      requires forall i :: 0 <= i < |es| ==> StrictlyBelow(dir + [ne.name], es[i].path)
      modifies this`pathMap, this`rPathMap, notifier
      ensures Valid() && (o.Fail? ==> published == None)
      ensures notifier.removals == old(notifier.removals)
      ensures var ch := Children(dir + [ne.name], es, skip);
              var k := FirstRefused(ch, notifier.refused);
              && pathMap == old(pathMap) + Fwd(ch[..k], old(notifier.nextWd))
              && rPathMap == old(rPathMap) + Bwd(ch[..k], old(notifier.nextWd))
              && o == (if k == |ch| then Pass else Fail(AddWatchFailed(ch[k])))
              && notifier.nextWd == old(notifier.nextWd) + k
              && (old(Inverse()) && old(NewDirs(ch)) ==> Inverse())
      ensures forall w :: w in notifier.live <==> w in old(notifier.live) || old(notifier.nextWd) <= w < notifier.nextWd
      ensures o.Pass? ==> (published.Some? <==> !ShallIgnore(dir))
      ensures published.Some? ==> published.value == Report(ne, dir)
    {
      BelowTransitive(root, dir, dir + [ne.name]);
      o := MonitorDirRecursively(dir + [ne.name], es);
      if o.Fail? {
        return None, o;
      }
      published := PublishUnlessIgnored(ne, dir);
    }

    /**
     * IN_IGNORED: the end of an unmount (published for the root only), or
     * the kernel dropping a watch, which completes its removal.
     */
    method OnIgnored(ne: NotifyEvent, dir: Path) returns (published: Option<RecursiveNotifyEvent>, o: Outcome<NotifyError>)
      requires Valid() && ne.wd in pathMap && pathMap[ne.wd] == dir
      modifies this`pathMap, this`rPathMap, this`ignoredPaths, this`beingUnmounted, notifier
      ensures Valid() && (o.Fail? ==> published == None)
      ensures published.Some? ==> published.value == Report(ne, dir)
      ensures dir[|root|..] in old(beingUnmounted) ==>
        && beingUnmounted == old(beingUnmounted) - {dir[|root|..]}
        && pathMap == old(pathMap) && rPathMap == old(rPathMap) && ignoredPaths == old(ignoredPaths)
        && unchanged(notifier) && o == Pass
        && (published.Some? <==> dir[|root|..] == [])
      ensures dir[|root|..] !in old(beingUnmounted) ==>
        && beingUnmounted == old(beingUnmounted)
        && ignoredPaths == old(ignoredPaths) - {dir}
        && (o.Pass? ==> published.Some?)
        && (o.Pass? ==> pathMap == OutsideW(old(pathMap), dir) && rPathMap == OutsideP(old(rPathMap), dir))
        && (o.Pass? ==> exists swept: seq<int> ::
              && notifier.removals == old(notifier.removals) + swept
              && (forall w :: w in swept <==> w in old(pathMap) && w != ne.wd && Below(dir, old(pathMap)[w]))
              && Distinct(swept))
        && notifier.live <= old(notifier.live)
        && (o.Pass? <==> SubtreeWatches(old(pathMap), dir) - {ne.wd} <= old(notifier.live))
        && (o.Pass? ==> notifier.live == old(notifier.live) - (SubtreeWatches(old(pathMap), dir) - {ne.wd}))
        && (o.Pass? && old(Inverse()) ==> Inverse())
    {
      var rel := dir[|root|..];
      if rel in beingUnmounted {
        beingUnmounted := beingUnmounted - {rel};
        if rel == [] {
          return Some(Report(ne, dir)), Pass;
        }
        return None, Pass;
      }
      o := CompleteMovedFrom(ne.wd);
      if o.Fail? {
        return None, o;
      }
      published := Some(Report(ne, dir));
    }
  }

  /**
   * The watcher's constructor: watch the root and every directory of its
   * listing that no skip pattern matches, or fail on the first refused one.
   */
  method NewWatchTree(root: Path, skip: seq<string>, refused: set<Path>, es: seq<DirEntry>) returns (r: Result<WatchTree, NotifyError>)
    requires forall i :: 0 <= i < |es| ==> StrictlyBelow(root, es[i].path)
    ensures r.Success? ==> fresh(r.value) && fresh(r.value.notifier)
    ensures r.Success? ==> r.value.Valid() && r.value.root == root && r.value.skip == skip
    ensures var ch := Children(root, es, skip);
            r.Failure? <==> FirstRefused(ch, refused) < |ch|
    ensures r.Failure? ==> var ch := Children(root, es, skip); r.error == AddWatchFailed(ch[FirstRefused(ch, refused)])
    ensures r.Success? ==>
      var ch := Children(root, es, skip);
      && r.value.pathMap == Fwd(ch, 1) && r.value.rPathMap == Bwd(ch, 1)
      && r.value.ignoredPaths == {} && r.value.beingUnmounted == {}
      && r.value.notifier.removals == [] && r.value.notifier.refused == refused
      && r.value.notifier.nextWd == 1 + |ch|
      && (forall w :: w in r.value.notifier.live <==> 1 <= w < 1 + |ch|)
      && (Distinct(ch) ==> r.value.Inverse())
  {
    var t := new WatchTree(root, skip, refused);
    assert Below(root, root);
    var o := t.MonitorDirRecursively(root, es);
    if o.Fail? {
      return Failure(o.error);
    }
    ghost var ch := Children(root, es, skip);
    assert ch[..|ch|] == ch;
    assert map[] + Fwd(ch, 1) == Fwd(ch, 1);
    assert map[] + Bwd(ch, 1) == Bwd(ch, 1);
    r := Success(t);
  }
}
