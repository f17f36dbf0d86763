/**
 Pass 3 of fsck.gfs2: every directory must be connected to the root. From each directory the pass climbs to its
 parents until it comes to one that was checked before, or to one that has no parent.
 */
module Pass3 {

  const FREE: int := 0
  const UNLINKED: int := 2
  const DINODE: int := 3
  const NO_STATE: int := -1

  // struct dir_info: the parent in which the tree walk found the directory (0 if in none), and the one its ".." names.
  datatype Dir = Dir(treewalk: nat, dotdot: nat, checked: bool)

  type Dirs = map<nat, Dir>

  // Where lost+found is, or will be created, and the directories that need no parent.
  datatype Places = Places(root: nat, master: nat, lf: nat)

  // The directory tree, the block bitmap, and the directories added to lost+found and those cleared.
  datatype World = World(dirs: Dirs, state: map<nat, int>, relinked: set<nat>, cleared: set<nat>) {
    // bitmap_type.
    function BitmapType(b: nat): int {
      if b in state then state[b] else NO_STATE
    }
  }

  // Where a way up may end.
  ghost predicate End(w: World, p: Places, d: nat) {
    d == p.root || d == p.master || d == p.lf || d in w.relinked || d in w.cleared
  }

  // A directory is done when it is an end, or ".." and the tree walk agree on a parent that is a directory, or was
  // one until it was cleared.
  ghost predicate Done(w: World, p: Places, d: nat) {
    End(w, p, d) || (d in w.dirs && w.dirs[d].dotdot == w.dirs[d].treewalk != 0 && Known(w, w.dirs[d].treewalk))
  }

  ghost predicate Known(w: World, d: nat) {
    d in w.dirs || d in w.cleared
  }

  // Directory d had a parent when the pass began: the tree walk named a directory, and that was an inode, or ".." named
  // another directory that was one.
  ghost predicate HadParent(w0: World, d: nat) {
    && d in w0.dirs
    && var up, dotdot := w0.dirs[d].treewalk, w0.dirs[d].dotdot;
    && up != 0 && up in w0.dirs
    && (w0.BitmapType(up) == DINODE || (dotdot != up && dotdot in w0.dirs && w0.BitmapType(dotdot) == DINODE))
  }

  // The way up from d was cut: it had no parent, or one that it named was cleared.
  ghost predicate Cut(w: World, w0: World, d: nat) {
    d in w0.dirs && (!HadParent(w0, d) || w0.dirs[d].treewalk in w.cleared || w0.dirs[d].dotdot in w.cleared)
  }

  // The way up from d is there: it is an end, or it had a parent, unless that is lost+found, which the pass may create.
  ghost predicate Up(w: World, p: Places, w0: World, d: nat) {
    End(w, p, d) || HadParent(w0, d) || (d in w0.dirs && p.lf in {w0.dirs[d].treewalk, w0.dirs[d].dotdot})
  }

  // What every step keeps, relative to the world w0 the pass began with: checked directories are done, and only those
  // whose way up was cut were relinked or cleared.
  ghost predicate Keeps(w: World, p: Places, w0: World) {
    && Grown(w, p, w0) && Bitmaps(w, p, w0)
    && (forall d | d in w.dirs && w.dirs[d].checked :: Done(w, p, d) && Up(w, p, w0, d))
    && forall d | d in w.relinked || d in w.cleared :: Cut(w, w0, d)
  }

  // The directories are those there were, but for some that were cleared and perhaps a new lost+found, and their
  // parents in the tree walk are what they were.
  ghost predicate Grown(w: World, p: Places, w0: World) {
    && 0 !in w.dirs && 0 != p.lf
    && (forall d | d in w0.dirs :: Known(w, d))
    && forall d | d in w.dirs ::
      || (d in w0.dirs && w.dirs[d].treewalk == w0.dirs[d].treewalk && (w.dirs[d].checked || w.dirs[d] == w0.dirs[d]))
      || (d == p.lf && w.dirs[d].checked)
  }

  // The bitmap changes where directories were cleared and at lost+found, and not at those that are unchecked.
  ghost predicate Bitmaps(w: World, p: Places, w0: World) {
    && (forall b :: w.BitmapType(b) == w0.BitmapType(b) || b in w.cleared || (b == p.lf && w.BitmapType(b) == DINODE))
    && (forall d | d in w.cleared :: w.BitmapType(d) != DINODE || d == p.lf)
    && forall d | d in w.dirs && !w.dirs[d].checked :: w.BitmapType(d) == w0.BitmapType(d)
  }

  // Inodes that are each other's parents, with no way out, and none of them relinked or cleared.
  ghost predicate Loop(w: World, w0: World, loop: set<nat>) {
    && 0 !in loop && loop !! w.relinked && loop !! w.cleared
    && forall c | c in loop ::
      c in w.dirs && c in w0.dirs && w0.dirs[c].treewalk in loop && w.BitmapType(c) == DINODE == w0.BitmapType(c)
  }

  ghost function Unchecked(dirs: Dirs): set<nat> {
    set d | d in dirs && !dirs[d].checked
  }

  lemma MarkedOne(dirs0: Dirs, dirs1: Dirs, d: nat)
    requires d in dirs0 && !dirs0[d].checked && dirs1.Keys == dirs0.Keys && dirs1[d].checked
    requires forall c | c in dirs0 && c != d :: dirs1[c] == dirs0[c]
    ensures |Unchecked(dirs1)| < |Unchecked(dirs0)|
  {
    assert Unchecked(dirs0) == Unchecked(dirs1) + {d};
  }

  // The parent to go on with, or 0: the tree walk must name a directory, and it or another directory that ".." names
  // must be an inode. Where both name a directory, the tree walk wins.
  ghost function ParentOf(w: World, d: nat): nat
    requires d in w.dirs
  {
    var up, dotdot := w.dirs[d].treewalk, w.dirs[d].dotdot;
    if up != 0 && up in w.dirs
       && (w.BitmapType(up) == DINODE || (dotdot != up && dotdot in w.dirs && w.BitmapType(dotdot) == DINODE))
    then up else 0
  }

  // The world after mark_and_return_parent: ".." is corrected on the way up, and where it names no directory but the
  // tree walk an inode.
  ghost function Marked(w: World, d: nat): World
    requires d in w.dirs
  {
    var up, dotdot := w.dirs[d].treewalk, w.dirs[d].dotdot;
    var corrected := up != 0 && (dotdot !in w.dirs || w.BitmapType(dotdot) != DINODE) && w.BitmapType(up) == DINODE;
    w.(dirs := w.dirs[d := Dir(up, if ParentOf(w, d) != 0 || corrected then up else dotdot, true)])
  }

  // Where the climb from d stops: at the first directory that was checked before, or has no parent.
  ghost function Top(w: World, d: nat): (top: nat)
    requires d in w.dirs
    ensures top in w.dirs
    decreases |Unchecked(w.dirs)|
  {
    if w.dirs[d].checked || ParentOf(w, d) == 0 then d
    else MarkedOne(w.dirs, Marked(w, d).dirs, d); Top(Marked(w, d), ParentOf(w, d))
  }

  // Clearing an unlinked inode, or one without entries, deletes it from the directory tree.
  ghost predicate Deletes(w: World, empty: set<nat>, d: nat) {
    w.BitmapType(d) == UNLINKED || (w.BitmapType(d) == DINODE && d in empty)
  }

  // The climb from d deletes the directory at which it stops.
  ghost predicate ClimbDeletes(w: World, empty: set<nat>, d: nat)
    requires d in w.dirs
  {
    var top := Top(w, d);
    !w.dirs[top].checked && ParentOf(w, top) == 0 && Deletes(w, empty, top)
  }

  // The climb goes on from the parent of d.
  lemma ClimbOn(w: World, empty: set<nat>, d: nat)
    requires d in w.dirs && !w.dirs[d].checked && ParentOf(w, d) != 0
    ensures ParentOf(w, d) in Marked(w, d).dirs && Top(w, d) == Top(Marked(w, d), ParentOf(w, d))
    ensures ClimbDeletes(w, empty, d) <==> ClimbDeletes(Marked(w, d), empty, ParentOf(w, d))
  {
    var top := Top(w, d);
    assert top != d ==> ParentOf(Marked(w, d), top) == ParentOf(w, top);
  }

  lemma KeepsNoZero(w: World, p: Places, w0: World)
    requires Keeps(w, p, w0)
    ensures 0 !in w.dirs
  {
  }

  // A directory that has a parent now had one when the pass began.
  lemma ParentThen(w: World, p: Places, w0: World, di: nat)
    requires Keeps(w, p, w0) && di in w.dirs && !w.dirs[di].checked && ParentOf(w, di) != 0
    ensures Up(w, p, w0, di)
  {
    hide Done, Cut, End;
    var up, dotdot := w.dirs[di].treewalk, w.dirs[di].dotdot;
    assert di in w0.dirs && w.dirs[di] == w0.dirs[di];
    assert w.BitmapType(up) == DINODE ==> w0.BitmapType(up) == DINODE || up == p.lf;
    assert w.BitmapType(dotdot) == DINODE ==> w0.BitmapType(dotdot) == DINODE || dotdot == p.lf;
  }

  // A step up: the directory is done.
  lemma StepUp(w: World, p: Places, w0: World, di: nat)
    requires Keeps(w, p, w0) && di in w.dirs && !w.dirs[di].checked && ParentOf(w, di) != 0
    ensures Keeps(Marked(w, di), p, w0)
  {
    var w' := Marked(w, di);
    ParentThen(w, p, w0, di);
    forall d | d in w'.dirs && w'.dirs[d].checked ensures Done(w', p, d) && Up(w', p, w0, d) {
      if d != di {
        assert Done(w, p, d) && Up(w, p, w0, d);
      }
    }
    forall d | d in w'.relinked || d in w'.cleared ensures Cut(w', w0, d) {
      assert Cut(w, w0, d);
    }
  }

  lemma LoopKept(w: World, w0: World, loop: set<nat>, di: nat)
    requires Loop(w, w0, loop) && di in w.dirs
    ensures Loop(Marked(w, di), w0, loop)
  {
  }

  // What make_sure_lf_exists may have done to the directory tree.
  ghost predicate LfMarked(dirs: Dirs, dirs': Dirs, p: Places) {
    dirs' == dirs || dirs' == dirs[p.lf := (if p.lf in dirs then dirs[p.lf] else Dir(0, 0, false)).(checked := true)]
  }

  // What happens to a directory without a parent: it stays in the tree, or is deleted and nothing else changes there.
  ghost predicate RelinkedFrom(w: World, w': World, p: Places, di: nat) {
    && (if di in w'.dirs then LfMarked(w.dirs, w'.dirs, p) else w'.dirs == w.dirs - {di} && di in w'.cleared)
    && End(w', p, di)
    && w.relinked <= w'.relinked <= w.relinked + {di} && w.cleared <= w'.cleared <= w.cleared + {di}
    && (di in w'.cleared && di !in w.cleared ==> w'.BitmapType(di) != DINODE)
    // the bitmap changes at this directory, or at lost+found
    && forall b ::
      || w'.BitmapType(b) == w.BitmapType(b) || (b == di && b in w'.cleared && w'.BitmapType(b) != DINODE)
      || (b == p.lf && w'.BitmapType(b) == DINODE && b in w'.dirs && w'.dirs[b].checked)
  }

  // The end of a climb: the directory has no parent, and was relinked or cleared.
  lemma StepOut(w: World, w2: World, p: Places, w0: World, di: nat)
    requires Keeps(w, p, w0) && di in w.dirs && !w.dirs[di].checked && ParentOf(w, di) == 0
    requires RelinkedFrom(Marked(w, di), w2, p, di)
    ensures Keeps(w2, p, w0)
  {
    OutGrown(w, w2, p, w0, di);
    forall d | d in w2.dirs && w2.dirs[d].checked ensures Done(w2, p, d) && Up(w2, p, w0, d) {
      if d != di && d != p.lf {
        assert Done(w, p, d) && Up(w, p, w0, d);
      }
    }
    OutCut(w, w2, p, w0, di);
  }

  lemma OutGrown(w: World, w2: World, p: Places, w0: World, di: nat)
    requires Keeps(w, p, w0) && di in w.dirs && !w.dirs[di].checked
    requires RelinkedFrom(Marked(w, di), w2, p, di)
    ensures Grown(w2, p, w0) && Bitmaps(w2, p, w0)
  {
    hide Done, Cut, ParentOf, Up, HadParent, End, Bitmaps;
    OutBitmaps(w, w2, p, w0, di);
    forall d | d in w0.dirs ensures Known(w2, d) {
      assert Known(w, d);
    }
  }

  lemma OutBitmaps(w: World, w2: World, p: Places, w0: World, di: nat)
    requires Keeps(w, p, w0) && di in w.dirs && !w.dirs[di].checked
    requires RelinkedFrom(Marked(w, di), w2, p, di)
    ensures Bitmaps(w2, p, w0)
  {
    hide Done, Cut, ParentOf, Up, HadParent, End, Known;
  }

  lemma OutCut(w: World, w2: World, p: Places, w0: World, di: nat)
    requires Keeps(w, p, w0) && di in w.dirs && !w.dirs[di].checked && ParentOf(w, di) == 0
    requires RelinkedFrom(Marked(w, di), w2, p, di)
    ensures forall d | d in w2.relinked || d in w2.cleared :: Cut(w2, w0, d)
  {
    hide Done;
    var up := w.dirs[di].treewalk;
    assert di in w0.dirs && w0.dirs[di].treewalk == up;
    assert up in w0.dirs ==> Known(w, up);
    forall d | d in w2.relinked || d in w2.cleared ensures Cut(w2, w0, d) {
      if d != di {
        assert Cut(w, w0, d);
      }
    }
  }

  lemma LoopOut(w: World, w2: World, p: Places, w0: World, di: nat, loop: set<nat>)
    requires Keeps(w, p, w0) && Loop(w, w0, loop)
    requires di in w.dirs && !w.dirs[di].checked && ParentOf(w, di) == 0 && RelinkedFrom(Marked(w, di), w2, p, di)
    ensures Loop(w2, w0, loop)
  {
    hide Done, Cut;
    assert di !in loop;
  }

  // A way up: each directory but the last leads to its parent in the tree walk, through those that were cleared too.
  ghost predicate Climbs(dirs: Dirs, p: Places, path: seq<nat>) {
    && |path| > 0
    && (forall i | 0 <= i < |path| :: path[i] in dirs || (i == |path| - 1 && path[i] == p.lf))
    && forall i | 0 < i < |path| :: path[i] == dirs[path[i - 1]].treewalk
  }

  ghost predicate NoRepeats(path: seq<nat>) {
    forall i, j | 0 <= i < j < |path| :: path[i] != path[j]
  }

  lemma {:induction false} NoRepeatsFits(path: seq<nat>, s: set<nat>)
    requires NoRepeats(path) && forall i | 0 <= i < |path| :: path[i] in s
    ensures |path| <= |s|
    decreases |path|
  {
    if path != [] {
      var last := path[|path| - 1];
      var rest := path[..|path| - 1];
      forall i | 0 <= i < |rest| ensures rest[i] in s - {last} {
        assert rest[i] == path[i];
      }
      NoRepeatsFits(rest, s - {last});
    }
  }

  lemma Extend(w: World, p: Places, w0: World, path: seq<nat>) returns (longer: seq<nat>)
    requires Keeps(w, p, w0) && (forall d | d in w.dirs :: w.dirs[d].checked)
    requires Climbs(w0.dirs, p, path) && NoRepeats(path)
    ensures Climbs(w0.dirs, p, longer) && path <= longer && NoRepeats(longer)
    ensures
      var last := longer[|longer| - 1];
      End(w, p, last) || (last in w0.dirs && w0.dirs[last].treewalk in longer)
    decreases |w0.dirs.Keys + {p.lf}| - |path|
  {
    longer := path;
    var last := path[|path| - 1];
    if !End(w, p, last) {
      ParentKnown(w, p, w0, last);
      var parent := w0.dirs[last].treewalk;
      if parent !in path {
        hide Keeps, End;
        NoRepeatsFits(path + [parent], w0.dirs.Keys + {p.lf});
        longer := Extend(w, p, w0, path + [parent]);
      }
    }
  }

  lemma ParentKnown(w: World, p: Places, w0: World, d: nat)
    requires Keeps(w, p, w0) && (forall c | c in w.dirs :: w.dirs[c].checked) && !End(w, p, d)
    requires d in w0.dirs || d == p.lf
    ensures d in w0.dirs && (w0.dirs[d].treewalk in w0.dirs || w0.dirs[d].treewalk == p.lf)
  {
    assert Known(w, d) && Done(w, p, d);
    var parent := w0.dirs[d].treewalk;
    if parent in w.cleared {
      assert Cut(w, w0, parent);
    }
  }

  // After the pass every way up that does not run into a cycle ends at the root, the master directory, lost+found, or
  // a directory that was relinked to lost+found or cleared.
  lemma WayUp(w: World, p: Places, w0: World, d: nat) returns (path: seq<nat>)
    requires Keeps(w, p, w0) && (forall c | c in w.dirs :: w.dirs[c].checked) && d in w0.dirs
    ensures Climbs(w0.dirs, p, path) && path[0] == d && NoRepeats(path)
    ensures
      var last := path[|path| - 1];
      End(w, p, last) || (last in w0.dirs && w0.dirs[last].treewalk in path)
  {
    path := Extend(w, p, w0, [d]);
  }

  // osi_next in the directory tree, which is sorted by address: 0 stands for the null pointer.
  ghost predicate Successor(s: set<nat>, d: nat, next: nat) {
    if next == 0 then Later(s, d) == {} else next in Later(s, d) && forall c | c in Later(s, d) :: next <= c
  }

  function Later(s: set<nat>, d: nat): set<nat> {
    set c | c in s && c > d
  }

  lemma {:induction false} LeastExists(s: set<nat>, n: nat)
    requires n in s
    ensures exists m :: m in s && forall c | c in s :: m <= c
    decreases n
  {
    if c :| c in s && c < n {
      LeastExists(s, c);
    }
  }

  lemma SuccessorIs(s: set<nat>, d: nat, next: nat)
    requires Successor(s, d, next)
    ensures forall c | c in s :: c <= d || (next != 0 && c >= next)
    ensures next != 0 ==> next in s && next > d
  {
    forall c | c in s && c > d ensures next != 0 && c >= next {
      assert c in Later(s, d);
    }
  }

  lemma LaterLess(s: set<nat>, d: nat, next: nat)
    requires next in s && next > d
    ensures |Later(s, next)| < |Later(s, d)|
  {
    var rest := Later(s, d) - Later(s, next);
    assert next in rest && Later(s, d) == Later(s, next) + rest;
  }

  // One turn of the walk: the world before it, the directory it starts from, and the next one, looked up before the
  // climb.
  datatype Turn = Turn(before: World, at: nat, next: nat)

  // The climb deletes the directory with which the walk would go on: the loop reads a node that was freed.
  ghost predicate Dangles(t: Turn, empty: set<nat>) {
    t.next != 0 && t.at in t.before.dirs && ClimbDeletes(t.before, empty, t.at) && Top(t.before, t.at) == t.next
  }

  // The turns of a walk over the directory tree.
  ghost predicate Walk(turns: seq<Turn>) {
    && (forall t | t in turns :: t.at in t.before.dirs && Successor(t.before.dirs.Keys, t.at, t.next))
    && forall i | 0 < i < |turns| :: turns[i].at == turns[i - 1].next
  }

  lemma NoTurns()
    ensures Walk([])
  {
  }

  lemma WalkMore(turns: seq<Turn>, t: Turn)
    requires Walk(turns) && t.at in t.before.dirs && Successor(t.before.dirs.Keys, t.at, t.next)
    requires turns != [] ==> turns[|turns| - 1].next == t.at
    ensures Walk(turns + [t])
  {
    hide Successor;
  }

  // The root and the master directory are marked before the walk begins.
  ghost function Prepared(w: World, p: Places): World {
    var dirs := if p.root in w.dirs then w.dirs[p.root := w.dirs[p.root].(checked := true)] else w.dirs;
    w.(dirs := if p.master in dirs then dirs[p.master := dirs[p.master].(checked := true)] else dirs)
  }

  lemma Begin(w: World, p: Places, loop: set<nat>)
    requires 0 !in w.dirs && p.lf != 0 && w.relinked == {} && w.cleared == {}
    requires (forall d | d in w.dirs :: !w.dirs[d].checked) && Loop(w, w, loop)
    ensures Keeps(Prepared(w, p), p, w) && Loop(Prepared(w, p), w, loop) && Prepared(w, p).dirs.Keys == w.dirs.Keys
  {
  }

  // The walk is at tmp: the directories before it are done.
  ghost predicate WalkAt(w: World, p: Places, w0: World, tmp: nat, loop: set<nat>, all: set<nat>) {
    && Keeps(w, p, w0) && Loop(w, w0, loop) && 0 !in w.dirs && p.lf in all && w.dirs.Keys <= all
    && (tmp != 0 ==> tmp in w.dirs)
    && forall d | d in w.dirs && (tmp == 0 || d < tmp) :: w.dirs[d].checked
  }

  lemma WalkBegins(w0: World, p: Places, tmp: nat, loop: set<nat>)
    requires
      var w := Prepared(w0, p);
      && Keeps(w, p, w0) && Loop(w, w0, loop) && 0 !in w.dirs && w.dirs.Keys == w0.dirs.Keys
      && Successor(w.dirs.Keys, 0, tmp)
    ensures WalkAt(Prepared(w0, p), p, w0, tmp, loop, Prepared(w0, p).dirs.Keys + {p.lf})
    ensures tmp == 0 ==> w0.dirs == map[]
  {
    hide Keeps, Loop, Successor, Prepared, Later;
    SuccessorIs(w0.dirs.Keys, 0, tmp);
    if tmp == 0 {
      assert forall d :: d !in w0.dirs;
    }
  }

  lemma WalkDone(w: World, p: Places, w0: World, loop: set<nat>, all: set<nat>)
    requires WalkAt(w, p, w0, 0, loop, all)
    ensures Keeps(w, p, w0) && Loop(w, w0, loop) && forall d | d in w.dirs :: w.dirs[d].checked && Done(w, p, d)
    ensures forall d | d in w0.dirs :: Up(w, p, w0, d)
  {
    hide Done, Loop, HadParent;
    forall d | d in w0.dirs ensures Up(w, p, w0, d) {
      assert Known(w, d);
    }
  }

  // What a dangling turn says of the world the pass began with: there is an unlinked or empty directory.
  lemma TurnIs(t: Turn, empty: set<nat>, p: Places, w0: World)
    requires t.at in t.before.dirs && Keeps(t.before, p, w0)
    ensures Dangles(t, empty) <==>
      t.next != 0 && ClimbDeletes(t.before, empty, t.at) && Top(t.before, t.at) == t.next
    ensures Dangles(t, empty) ==> exists d :: d in w0.dirs && Deletes(w0, empty, d)
  {
    hide Done, Cut, ParentOf;
    if Dangles(t, empty) {
      assert t.next in w0.dirs && Deletes(w0, empty, t.next);
    }
  }

  class Pass {
    const places: Places
    const empty: set<nat>     // directories without entries and extended attributes
    const lfLinked: bool      // the root directory has an entry lost+found
    var lfExists: bool        // lf_dip is set
    var w: World

    constructor (places: Places, empty: set<nat>, lfLinked: bool, lfExists: bool, w: World)
      ensures this.places == places && this.empty == empty && this.lfLinked == lfLinked
      ensures this.lfExists == lfExists && this.w == w
    {
      this.places, this.empty, this.lfLinked, this.lfExists, this.w := places, empty, lfLinked, lfExists, w;
    }

    method Mark(d: nat)
      modifies this`w
      ensures w == if d in old(w).dirs then old(w).(dirs := old(w).dirs[d := old(w).dirs[d].(checked := true)])
        else old(w)
    {
      if d in w.dirs {
        w := w.(dirs := w.dirs[d := w.dirs[d].(checked := true)]);
      }
    }

    // mark_and_return_parent: the parent to go on with, or 0.
    method MarkAndReturnParent(di: nat) returns (parent: nat)
      requires di in w.dirs && 0 !in w.dirs
      modifies this`w
      ensures parent == ParentOf(old(w), di) && w == Marked(old(w), di)
      // there is one exactly if the tree walk names a directory, and that is an inode or ".." names another directory
      // that is one
      ensures
        var d, w0 := old(w).dirs[di], old(w);
        && (parent != 0 <==>
             && d.treewalk != 0 && d.treewalk in w0.dirs
             && (w0.BitmapType(d.treewalk) == DINODE
                 || (d.dotdot != d.treewalk && d.dotdot in w0.dirs && w0.BitmapType(d.dotdot) == DINODE)))
        && (parent != 0 ==> parent == d.treewalk)
        && w.dirs[di].checked && w.dirs[di].treewalk == d.treewalk
        // ".." is corrected on the way up, and where it names no directory but the tree walk an inode
        && w.dirs[di].dotdot ==
             (if parent != 0 || (d.treewalk != 0 && w0.BitmapType(d.treewalk) == DINODE
                                 && (d.dotdot !in w0.dirs || w0.BitmapType(d.dotdot) != DINODE))
              then d.treewalk else d.dotdot)
    {
      Mark(di);
      var d := w.dirs[di];
      if d.treewalk == 0 {
        return 0;
      }
      if d.dotdot == d.treewalk {
        if w.BitmapType(d.dotdot) != DINODE {
          return 0;
        }
      } else if w.BitmapType(d.dotdot) != DINODE || d.dotdot !in w.dirs {
        if w.BitmapType(d.treewalk) != DINODE {
          return 0;
        }
        w := w.(dirs := w.dirs[di := d.(dotdot := d.treewalk)]);
      } else if d.treewalk in w.dirs {
        w := w.(dirs := w.dirs[di := d.(dotdot := d.treewalk)]);
      } else {
        // the entry in the bad parent is removed
        return 0;
      }
      return if d.treewalk in w.dirs then d.treewalk else 0;
    }

    // make_sure_lf_exists: lost+found is found or created, and counts as connected.
    method MakeSureLfExists()
      modifies this`lfExists, this`w
      ensures lfExists && LfMarked(old(w).dirs, w.dirs, places) && w.relinked == old(w).relinked
      ensures w.cleared == old(w).cleared
      ensures forall b ::
        || w.BitmapType(b) == old(w).BitmapType(b)
        || (b == places.lf && w.BitmapType(b) == DINODE && b in w.dirs && w.dirs[b].checked)
      ensures !old(lfExists) && !lfLinked ==>
        w.BitmapType(places.lf) == DINODE && places.lf in w.dirs && w.dirs[places.lf].checked
    {
      if lfExists {
        return;
      }
      lfExists := true;
      if !lfLinked {
        if places.lf !in w.dirs {
          w := w.(dirs := w.dirs[places.lf := Dir(0, 0, false)]);
        }
        w := w.(state := w.state[places.lf := DINODE]);
      }
      Mark(places.lf);
    }

    // check_n_fix_bitmap with the state "free": an inode is taken out of the directory tree.
    method SetFree(di: nat)
      modifies this`w
      ensures w.BitmapType(di) == if old(w).BitmapType(di) == NO_STATE then NO_STATE else FREE
      ensures forall b | b != di :: w.BitmapType(b) == old(w).BitmapType(b)
      ensures w.dirs == if old(w).BitmapType(di) in {DINODE, UNLINKED} then old(w).dirs - {di} else old(w).dirs
      ensures w.relinked == old(w).relinked && w.cleared == old(w).cleared
    {
      var oldState := w.BitmapType(di);
      if oldState == NO_STATE || oldState == FREE {
        return;
      }
      w := w.(state := w.state[di := FREE]);
      if oldState == DINODE || oldState == UNLINKED {
        w := w.(dirs := w.dirs - {di});
      }
    }

    // What pass 3 does with a directory that has no parent: clear it, or add it to lost+found.
    method Relink(di: nat)
      requires di in w.dirs
      modifies this`lfExists, this`w
      ensures RelinkedFrom(old(w), w, places, di) && (di !in w.dirs <==> Deletes(old(w), empty, di))
      // what is no inode, or has nothing in it, is cleared, and every other directory but lost+found itself is relinked
      ensures
        if old(w).BitmapType(di) != DINODE || di in empty then
          && w.cleared == old(w).cleared + {di} && w.relinked == old(w).relinked && lfExists == old(lfExists)
          && w.BitmapType(di) == if old(w).BitmapType(di) == NO_STATE then NO_STATE else FREE
        else
          && w.cleared == old(w).cleared && w.relinked == old(w).relinked + (if di == places.lf then {} else {di})
          && lfExists && w.BitmapType(di) == DINODE
    {
      if w.BitmapType(di) != DINODE || di in empty {
        SetFree(di);
        w := w.(cleared := w.cleared + {di});
        return;
      }
      MakeSureLfExists();
      // add_inode_to_lf does not add lost+found to itself
      if di != places.lf {
        w := w.(relinked := w.relinked + {di});
      }
    }

    // Directories that were checked stay so, and nothing more is done with them.
    twostate predicate StillChecked()
      reads this`w
    {
      forall d | d in old(w).dirs && old(w).dirs[d].checked ::
        && d in w.dirs && w.dirs[d].checked
        && (d in w.relinked <==> d in old(w).relinked) && (d in w.cleared <==> d in old(w).cleared)
    }

    // After a climb: at most the directory at which it stopped is relinked, cleared or deleted, and only lost+found is
    // new.
    twostate predicate Decided(top: nat, deleted: bool)
      reads this`w
    {
      && w.relinked <= old(w).relinked + {top} && w.cleared <= old(w).cleared + {top}
      && (forall d | d in old(w).dirs :: d in w.dirs <==> !(deleted && d == top))
      && forall d | d in w.dirs :: d in old(w).dirs || (d == places.lf && w.dirs[d].checked)
    }

    // One step of the climb: go on to the parent, or clear or relink the directory and stop.
    method ClimbStep(di: nat, ghost w0: World, ghost loop: set<nat>) returns (tdi: nat)
      requires Keeps(w, places, w0) && di in w.dirs && !w.dirs[di].checked && Loop(w, w0, loop)
      modifies this`lfExists, this`w
      ensures Keeps(w, places, w0) && (di in w.dirs ==> w.dirs[di].checked) && Loop(w, w0, loop) && StillChecked()
      ensures tdi == ParentOf(old(w), di)
      ensures tdi != 0 ==> w == Marked(old(w), di) && tdi in w.dirs && |Unchecked(w.dirs)| < |Unchecked(old(w).dirs)|
      ensures tdi == 0 ==> Decided(di, Deletes(old(w), empty, di))
    {
      hide Done, Cut, Loop, Unchecked, Keeps, End;
      KeepsNoZero(w, places, w0);
      ghost var before := w;
      tdi := MarkAndReturnParent(di);
      MarkedOne(before.dirs, w.dirs, di);
      if tdi != 0 {
        StepUp(before, places, w0, di);
        LoopKept(before, w0, loop, di);
        return;
      }
      Relink(di);
      StepOut(before, w, places, w0, di);
      LoopOut(before, w, places, w0, di, loop);
    }

    // The climb from one directory. Each step marks one more directory; where the climb stops for want of a parent,
    // the directory may be deleted.
    method Climb(start: nat, ghost w0: World, ghost loop: set<nat>)
      requires Keeps(w, places, w0) && start in w.dirs && Loop(w, w0, loop)
      modifies this`lfExists, this`w
      ensures Keeps(w, places, w0) && (start in w.dirs ==> w.dirs[start].checked) && Loop(w, w0, loop)
      ensures StillChecked()
      ensures Decided(Top(old(w), start), ClimbDeletes(old(w), empty, start))
    {
      hide Keeps, Loop, Unchecked, Deletes;
      var di := start;
      while !w.dirs[di].checked
        invariant di in w.dirs && w.dirs.Keys == old(w).dirs.Keys && (di == start || w.dirs[start].checked)
        invariant Keeps(w, places, w0) && Loop(w, w0, loop) && StillChecked()
        invariant w.relinked == old(w).relinked && w.cleared == old(w).cleared
        invariant Top(w, di) == Top(old(w), start)
        invariant ClimbDeletes(w, empty, di) <==> ClimbDeletes(old(w), empty, start)
        decreases |Unchecked(w.dirs)|
      {
        if ParentOf(w, di) != 0 {
          ClimbOn(w, empty, di);
        }
        var tdi := ClimbStep(di, w0, loop);
        if tdi == 0 {
          break;
        }
        di := tdi;
      }
    }

    // osi_first and osi_next in the directory tree, which is sorted by address.
    method OsiNext(d: nat) returns (next: nat)
      requires 0 !in w.dirs
      ensures Successor(w.dirs.Keys, d, next)
    {
      var later := Later(w.dirs.Keys, d);
      if later == {} {
        return 0;
      }
      ghost var one :| one in later;
      LeastExists(later, one);
      next :| next in later && forall c | c in later :: next <= c;
    }

    // One turn: the next directory is looked up, and then the climb may delete it.
    method WalkTurn(tmp: nat, ghost w0: World, ghost loop: set<nat>, ghost all: set<nat>)
      returns (next: nat, ghost t: Turn)
      requires tmp != 0 && WalkAt(w, places, w0, tmp, loop, all)
      modifies this`lfExists, this`w
      ensures t == Turn(old(w), tmp, next) && t.at in t.before.dirs && Successor(t.before.dirs.Keys, tmp, next)
      ensures Keeps(w, places, w0) && Loop(w, w0, loop)
      ensures next == 0 || next in w.dirs ==> WalkAt(w, places, w0, next, loop, all)
      ensures Dangles(t, empty) <==> next != 0 && next !in w.dirs
      ensures Dangles(t, empty) ==> exists d :: d in w0.dirs && Deletes(w0, empty, d)
      ensures next != 0 && next in w.dirs ==> |Later(all, next)| < |Later(all, tmp)|
    {
      hide Keeps, Loop, Dangles, ClimbDeletes, Top, Later, Successor, Deletes;
      next := OsiNext(tmp);
      SuccessorIs(w.dirs.Keys, tmp, next);
      t := Turn(w, tmp, next);
      TurnIs(t, empty, places, w0);
      Climb(tmp, w0, loop);
      KeepsNoZero(w, places, w0);
      if next != 0 && next in w.dirs {
        LaterLess(all, tmp, next);
      }
    }

    method MarkRoots()
      modifies this`w
      ensures w == Prepared(old(w), places)
    {
      Mark(places.root);
      Mark(places.master);
    }

    // Before the walk: the root and the master directory are marked.
    method Begins(ghost loop: set<nat>) returns (tmp: nat, ghost all: set<nat>)
      requires 0 !in w.dirs && places.lf != 0 && w.relinked == {} && w.cleared == {}
      requires (forall d | d in w.dirs :: !w.dirs[d].checked) && Loop(w, w, loop)
      modifies this`lfExists, this`w
      ensures w == Prepared(old(w), places) && WalkAt(w, places, old(w), tmp, loop, all)
      ensures Successor(old(w).dirs.Keys, 0, tmp) && (tmp == 0 ==> old(w).dirs == map[])
    {
      hide Keeps, Loop, Successor, Prepared, Later, WalkAt;
      ghost var w0 := w;
      MarkRoots();
      Begin(w0, places, loop);
      KeepsNoZero(w, places, w0);
      tmp := OsiNext(0);
      all := w.dirs.Keys + {places.lf};
      WalkBegins(w0, places, tmp, loop);
    }

    // pass3 for GFS2, with every repair accepted. The loop looks up the next directory before it climbs; it ends
    // early, with `ok` false, where that one was deleted meanwhile.
    method Pass3(ghost loop: set<nat>) returns (ok: bool, ghost turns: seq<Turn>)
      requires 0 !in w.dirs && places.lf != 0 && w.relinked == {} && w.cleared == {}
      requires forall d | d in w.dirs :: !w.dirs[d].checked
      requires Loop(w, w, loop)
      modifies this`lfExists, this`w
      // every directory left was checked, and is an end of a way up or connected to its parent
      ensures Keeps(w, places, old(w))
      ensures ok ==> forall d | d in w.dirs :: w.dirs[d].checked && Done(w, places, d)
      // every directory is an end, or its tree walk or ".." named an inode when the pass began: orphans are relinked
      // or cleared, but for lost+found, the root and the master directory, and what is in a new lost+found
      ensures ok ==> forall d | d in old(w).dirs :: Up(w, places, old(w), d)
      // directories that are each other's parents count as connected: none of them is ever relinked
      ensures Loop(w, old(w), loop)
      // the walk goes on in the tree exactly if no climb deletes the directory that comes next
      ensures Walk(turns) && (ok <==> forall t | t in turns :: !Dangles(t, empty))
      ensures ok && turns != [] ==> turns[|turns| - 1].next == 0
      ensures old(w).dirs != map[] ==>
        turns != [] && turns[0].before == Prepared(old(w), places) && Successor(old(w).dirs.Keys, 0, turns[0].at)
      // so it does if no directory is unlinked or empty
      ensures (forall d | d in old(w).dirs :: !Deletes(old(w), empty, d)) ==> ok
    {
      hide *;
      ghost var w0 := w;
      var tmp;
      ghost var all;
      tmp, all := Begins(loop);
      turns := [];
      NoTurns();
      while tmp != 0
        invariant WalkAt(w, places, w0, tmp, loop, all)
        invariant Walk(turns) && (turns != [] ==> turns[|turns| - 1].next == tmp)
        invariant forall t | t in turns :: !Dangles(t, empty)
        invariant turns == [] ==> w == Prepared(w0, places) && Successor(w0.dirs.Keys, 0, tmp)
        invariant turns == [] && tmp == 0 ==> w0.dirs == map[]
        invariant turns != [] ==> turns[0].before == Prepared(w0, places) && Successor(w0.dirs.Keys, 0, turns[0].at)
        decreases if tmp == 0 then 0 else 1 + |Later(all, tmp)|
      {
        ghost var t;
        var next;
        next, t := WalkTurn(tmp, w0, loop, all);
        WalkMore(turns, t);
        turns := turns + [t];
        if next != 0 && next !in w.dirs {
          assert t in turns;
          return false, turns;
        }
        tmp := next;
      }
      ok := true;
      WalkDone(w, places, w0, loop, all);
    }
  }

  // Directory 5 comes just before directory 6, which is unlinked and has no parent; the tree walk found 5 in 6, and
  // ".." of 5 names the root.
  lemma ClimbToUnlinked(w: World)
    requires w.dirs == map[5 := Dir(6, 9, false), 6 := Dir(0, 0, false), 9 := Dir(9, 9, true)]
    requires w.state == map[5 := DINODE, 6 := UNLINKED, 9 := DINODE]
    ensures Top(w, 5) == 6 && ClimbDeletes(w, {}, 5)
  {
    assert ParentOf(w, 5) == 6 && ParentOf(Marked(w, 5), 6) == 0;
    ClimbOn(w, {}, 5);
  }

  lemma FirstFive(s: set<nat>, at: nat, next: nat)
    requires s == {5, 6, 9} && Successor(s, 0, at) && (at == 5 ==> Successor(s, 5, next))
    ensures at == 5 && next == 6
  {
    SuccessorIs(s, 0, at);
    assert at == 5;
    SuccessorIs(s, 5, next);
  }

  lemma DanglesThere(t: Turn, empty: set<nat>)
    requires t.next != 0 && t.at in t.before.dirs && ClimbDeletes(t.before, empty, t.at)
    requires Top(t.before, t.at) == t.next
    ensures Dangles(t, empty)
  {
  }

  // The climb from 5 deletes 6, with which the walk would go on.
  method NextIsDeleted() returns (ok: bool)
    ensures !ok
  {
    hide Keeps, Done, Up, HadParent, Dangles, Top, ClimbDeletes;
    var w := World(map[5 := Dir(6, 9, false), 6 := Dir(0, 0, false), 9 := Dir(9, 9, false)],
                   map[5 := DINODE, 6 := UNLINKED, 9 := DINODE], {}, {});
    var pass := new Pass(Places(9, 10, 11), {}, true, false, w);
    ghost var turns;
    ok, turns := pass.Pass3({});
    assert 5 in w.dirs;
    ghost var t := turns[0];
    assert w.dirs.Keys == {5, 6, 9} == t.before.dirs.Keys && t in turns;
    FirstFive(w.dirs.Keys, t.at, t.next);
    ClimbToUnlinked(t.before);
    DanglesThere(t, {});
  }

  // Directory 5 below directory 6, which both its ".." and the tree walk name but which is unlinked: 5 is an orphan.
  method OrphanIsMoved() returns (w: World)
    ensures 5 in w.relinked || 5 in w.cleared
  {
    hide Done, Top, ClimbDeletes, Loop;
    w := World(map[5 := Dir(6, 6, false), 6 := Dir(9, 9, false), 9 := Dir(9, 9, true)],
               map[5 := DINODE, 6 := UNLINKED, 9 := DINODE], {}, {});
    var pass := new Pass(Places(9, 10, 11), {}, true, false, w);
    RootDone(w, pass.places);
    ghost var w0 := w;
    pass.Climb(5, w0, {});
    w := pass.w;
    assert Known(w, 5);
  }

  lemma RootDone(w: World, p: Places)
    requires w.relinked == {} && w.cleared == {} && 0 !in w.dirs && p.lf != 0
    requires forall d | d in w.dirs && w.dirs[d].checked :: d == p.root
    ensures Keeps(w, p, w) && Loop(w, w, {})
  {
  }

  // Two directories that are each other's parents stay where they are.
  method ParentsOfEachOther() returns (w: World)
    ensures {2, 3} !! w.relinked && {2, 3} !! w.cleared && {2, 3} <= w.dirs.Keys
  {
    w := World(map[2 := Dir(3, 3, false), 3 := Dir(2, 2, false), 9 := Dir(9, 9, false)],
               map[2 := DINODE, 3 := DINODE, 9 := DINODE], {}, {});
    var pass := new Pass(Places(9, 10, 11), {}, true, false, w);
    ghost var turns;
    var ok;
    ok, turns := pass.Pass3({2, 3});
    w := pass.w;
  }

  // The directory whose climb deletes its parent counts as connected to it.
  method ParentIsDeleted() returns (w: World)
    ensures 5 in w.dirs && w.dirs[5].checked && w.dirs[5].treewalk == 6 && 6 !in w.dirs
    ensures 5 !in w.relinked && 5 !in w.cleared
  {
    w := World(map[5 := Dir(6, 9, false), 6 := Dir(0, 0, false), 9 := Dir(9, 9, true)],
               map[5 := DINODE, 6 := UNLINKED, 9 := DINODE], {}, {});
    var pass := new Pass(Places(9, 10, 11), {}, true, false, w);
    ClimbToUnlinked(w);
    pass.Climb(5, w, {});
    w := pass.w;
  }
}
