/** `emptydirlocal` and `removeRecursively` (POSIX): emptying a folder without leaving its device. */
module RecursiveDelete {
  import opened Sets

  /** A path, component by component. */
  type Name = seq<string>

  /** `locked` entries cannot be unlinked or removed; an unreadable folder cannot be opened. */
  datatype Entry =
    | File(locked: bool)
    | Link(locked: bool)
    | Dir(dev: nat, readable: bool, locked: bool)

  type Tree = map<Name, Entry>

  predicate Under(top: Name, k: Name) {
    top < k
  }

  /** Every ancestor of an entry is a folder. */
  ghost predicate WellFormed(t: Tree) {
    forall k, n :: k in t && 0 < n < |k| ==> k[..n] in t && t[k[..n]].Dir?
  }

  // ----- What must stay, stated without following the traversal -----

  predicate Open(t: Tree, dev: nat, k: Name) {
    k in t && t[k].Dir? && t[k].readable && t[k].dev == dev
  }

  /** Every folder from `top` down to `m` can be opened and is on the device. */
  ghost predicate Reached(t: Tree, top: Name, dev: nat, m: Name)
    requires top <= m
  {
    forall n :: |top| <= n < |m| ==> Open(t, dev, m[..n])
  }

  /** An entry that cannot go itself: out of reach, undeletable, or a folder on another device. */
  ghost predicate Anchor(t: Tree, top: Name, dev: nat, m: Name) {
    && m in t && Under(top, m)
    && (!Reached(t, top, dev, m) || t[m].locked || (t[m].Dir? && t[m].dev != dev))
  }

  /** Such an entry, or an ancestor of one. */
  ghost predicate Stays(t: Tree, top: Name, dev: nat, k: Name) {
    exists m :: k <= m && Anchor(t, top, dev, m)
  }

  ghost function Residue(t: Tree, top: Name, dev: nat): Tree {
    map k | k in t && (Under(top, k) ==> Stays(t, top, dev, k)) :: t[k]
  }

  // ----- The traversal -----

  function Below(t: Tree, top: Name): set<Name> {
    set k | k in t && Under(top, k)
  }

  function Children(t: Tree, top: Name): set<string> {
    set k | k in t && Under(top, k) && |k| == |top| + 1 :: k[|top|]
  }

  function CanRmdir(t: Tree, k: Name): bool {
    k in t && t[k].Dir? && !t[k].locked && Below(t, k) == {}
  }

  function CanUnlink(t: Tree, k: Name): bool {
    k in t && !t[k].Dir? && !t[k].locked
  }

  /** Part way through emptying `top`: `now` is `start` minus entries that may go. */
  ghost predicate Emptying(start: Tree, now: Tree, top: Name, dev: nat) {
    && WellFormed(start) && WellFormed(now)
    && (forall k :: k in now ==> k in start && now[k] == start[k])
    && (forall k :: k in start && (!Under(top, k) || Stays(start, top, dev, k)) ==> k in now)
  }

  /** Nothing that could go is left at or below `c`. */
  ghost predicate Cleared(start: Tree, now: Tree, top: Name, dev: nat, c: Name) {
    forall k :: k in now && c <= k ==> Stays(start, top, dev, k)
  }

  lemma AncestorAt(t: Tree, c: Name, k: Name)
    requires WellFormed(t) && k in t && c != [] && Under(c, k)
    ensures c in t && t[c].Dir?
  {
    assert k[..|c|] == c;
  }

  lemma ReachedChild(t: Tree, top: Name, dev: nat, c: Name)
    requires Open(t, dev, top) && Under(top, c) && |c| == |top| + 1
    ensures Reached(t, top, dev, c)
  {
    assert c[..|top|] == top;
  }

  /** Whatever must stay under `top`, and lies under its child `c`, must stay under `c`. */
  lemma StaysInward(start: Tree, now: Tree, top: Name, dev: nat, c: Name, k: Name)
    requires Emptying(start, now, top, dev) && top != [] && Open(start, dev, top)
    requires Under(top, c) && |c| == |top| + 1 && Under(c, k) && Stays(start, top, dev, k)
    ensures Stays(now, c, dev, k)
  {
    var m :| k <= m && Anchor(start, top, dev, m);
    assert Stays(start, top, dev, m);
    assert m in now && now[m] == start[m] && Under(c, m);
    if !(now[m].locked || (now[m].Dir? && now[m].dev != dev)) {
      var n :| |top| <= n < |m| && !Open(start, dev, m[..n]);
      assert m[..|top|] == top;
      assert n != |top|;
      assert m[..n] in now && now[m[..n]] == start[m[..n]];
      assert !Open(now, dev, m[..n]);
    }
    assert Anchor(now, c, dev, m);
  }

  lemma StaysOutward(start: Tree, now: Tree, top: Name, dev: nat, c: Name, k: Name)
    requires Emptying(start, now, top, dev) && top != []
    requires Under(top, c) && Stays(now, c, dev, k)
    ensures Stays(start, top, dev, k)
  {
    var m :| k <= m && Anchor(now, c, dev, m);
    if !(now[m].locked || (now[m].Dir? && now[m].dev != dev)) {
      var n :| |c| <= n < |m| && !Open(now, dev, m[..n]);
      assert m[..n] in now && now[m[..n]] == start[m[..n]];
      assert !Open(start, dev, m[..n]);
    }
    assert Anchor(start, top, dev, m);
  }

  /** Emptying the child `c` keeps everything that must stay and leaves nothing else below it. */
  lemma ChildEmptied(start: Tree, now: Tree, top: Name, dev: nat, c: Name)
    requires Emptying(start, now, top, dev) && top != [] && Open(start, dev, top)
    requires Under(top, c) && |c| == |top| + 1
    requires WellFormed(Residue(now, c, dev))
    ensures Emptying(start, Residue(now, c, dev), top, dev)
    ensures forall k :: k in Residue(now, c, dev) && Under(c, k) ==> Stays(start, top, dev, k)
  {
    var after := Residue(now, c, dev);
    forall k | k in start && (!Under(top, k) || Stays(start, top, dev, k)) ensures k in after {
      if Under(c, k) {
        StaysInward(start, now, top, dev, c, k);
      }
    }
    forall k | k in after && Under(c, k) ensures Stays(start, top, dev, k) {
      StaysOutward(start, now, top, dev, c, k);
    }
  }

  lemma ResidueWellFormed(t: Tree, top: Name, dev: nat)
    requires WellFormed(t)
    ensures WellFormed(Residue(t, top, dev))
  {
    var r := Residue(t, top, dev);
    forall k, n | k in r && 0 < n < |k| ensures k[..n] in r && r[k[..n]].Dir? {
      if Under(top, k[..n]) {
        var m :| k <= m && Anchor(t, top, dev, m);
        assert k[..n] <= m;
      }
    }
  }

  lemma RemoveWellFormed(t: Tree, c: Name)
    requires WellFormed(t) && Below(t, c) == {}
    ensures WellFormed(t - {c})
  {
    forall k, n | k in t - {c} && 0 < n < |k| ensures k[..n] in t - {c} && (t - {c})[k[..n]].Dir? {
      assert k[..n] == c ==> k in Below(t, c);
    }
  }

  /** What an unlink or rmdir removes did not have to stay. */
  lemma RemovedWasFree(start: Tree, now: Tree, top: Name, dev: nat, c: Name)
    requires Emptying(start, now, top, dev) && Open(start, dev, top)
    requires Under(top, c) && |c| == |top| + 1 && c in now
    requires !now[c].locked && (now[c].Dir? ==> now[c].dev == dev) && Below(now, c) == {}
    ensures Emptying(start, now - {c}, top, dev)
    ensures Cleared(start, now - {c}, top, dev, c)
  {
    RemoveWellFormed(now, c);
    ReachedChild(start, top, dev, c);
    forall m | c <= m ensures !Anchor(start, top, dev, m) {
      assert Anchor(start, top, dev, m) ==> Stays(start, top, dev, m);
      assert m in now ==> m == c || m in Below(now, c);
    }
    assert forall k :: k in now && c <= k ==> k == c || k in Below(now, c);
  }

  lemma FileHasNothingBelow(t: Tree, c: Name)
    requires WellFormed(t) && c in t && !t[c].Dir? && c != []
    ensures Below(t, c) == {}
  {
    forall k | k in Below(t, c) ensures false {
      AncestorAt(t, c, k);
    }
  }

  /** An entry `unlink` leaves in place, and everything below it, had to stay. */
  lemma NotUnlinkedMustStay(start: Tree, now: Tree, top: Name, dev: nat, c: Name)
    requires Emptying(start, now, top, dev)
    requires c != [] && Under(top, c) && c in now
    requires now[c].locked || (now[c].Dir? && now[c].dev != dev)
    requires now[c].Dir? ==> now[c].dev != dev
    ensures Cleared(start, now, top, dev, c)
  {
    forall k | k in now && c <= k ensures Stays(start, top, dev, k) {
      if k == c {
        assert Anchor(start, top, dev, c);
      } else {
        AncestorAt(now, c, k);
        assert k[..|c|] == c;
        assert !Open(start, dev, k[..|c|]);
        assert Anchor(start, top, dev, k);
      }
    }
  }

  /** A folder `rmdir` leaves in place had to stay. */
  lemma NotRemovedMustStay(start: Tree, now: Tree, top: Name, dev: nat, c: Name)
    requires Emptying(start, now, top, dev)
    requires Under(top, c) && c in now && now[c].Dir? && !CanRmdir(now, c)
    requires forall k :: k in now && Under(c, k) ==> Stays(start, top, dev, k)
    ensures Cleared(start, now, top, dev, c)
  {
    if now[c].locked {
      assert Anchor(start, top, dev, c);
    } else {
      var k :| k in Below(now, c);
      var m :| k <= m && Anchor(start, top, dev, m);
      assert c <= m;
    }
    forall k | k in now && c <= k ensures Stays(start, top, dev, k) {
      assert k == c || Under(c, k);
    }
  }

  lemma ChildrenCover(t: Tree, top: Name, k: Name)
    requires WellFormed(t) && k in t && Under(top, k) && top != []
    ensures k[|top|] in Children(t, top) && top + [k[|top|]] <= k
  {
    var c := k[..|top| + 1];
    assert c == top + [k[|top|]];
    assert |k| > |c| ==> c in t;
    assert |k| == |c| ==> c == k;
    assert c[|top|] == k[|top|];
  }

  lemma AllClearedIsResidue(start: Tree, now: Tree, top: Name, dev: nat, names: set<string>)
    requires Emptying(start, now, top, dev) && top != []
    requires forall k :: k in now && Under(top, k) ==> k[|top|] in names
    requires forall d :: d in names ==> Cleared(start, now, top, dev, top + [d])
    ensures now == Residue(start, top, dev)
  {
    forall k | k in now && Under(top, k) ensures Stays(start, top, dev, k) {
      assert top + [k[|top|]] <= k;
    }
    var left := Residue(start, top, dev);
    forall k ensures k in now <==> k in left {}
    forall k | k in now ensures now[k] == left[k] {}
  }

  /** A folder that cannot be opened keeps everything. */
  lemma UnreadableKeepsAll(t: Tree, top: Name, dev: nat)
    requires WellFormed(t) && top in t && !Open(t, dev, top)
    ensures Residue(t, top, dev) == t
  {
    forall k | k in t && Under(top, k) ensures Stays(t, top, dev, k) {
      assert k[..|top|] == top;
      assert Anchor(t, top, dev, k);
    }
  }

  lemma FewerBelow(t: Tree, now: Tree, top: Name, c: Name)
    requires forall k :: k in now ==> k in t
    requires Under(top, c) && c in now
    ensures |Below(now, c)| < |Below(t, top)|
  {
    assert Below(now, c) + {c} <= Below(t, top);
    SubsetSize(Below(now, c) + {c}, Below(t, top));
  }

  class Remover {
    var fs: Tree
    /** The path buffer every level of the recursion extends and restores. */
    var name: Name

    /** Empties the folder named by the buffer; `basedev` is 0 at the outermost call. */
    method EmptyDirLocal(basedev: nat)
      requires WellFormed(fs) && name != []
      requires basedev != 0 ==> name in fs && fs[name].Dir? && fs[name].dev == basedev
      modifies this
      ensures name == old(name) && WellFormed(fs)
      ensures fs == if name in old(fs) && old(fs)[name].Dir? then Residue(old(fs), name, old(fs)[name].dev) else old(fs)
      decreases |Below(fs, name)|
    {
      ghost var start, top := fs, name;
      if basedev == 0 && (name !in fs || !fs[name].Dir?) {
        return;
      }
      var dev := if basedev == 0 then fs[name].dev else basedev;
      if !fs[name].readable {
        UnreadableKeepsAll(fs, name, dev);
        return;
      }
      while true
        invariant name == top && Emptying(start, fs, top, dev)
        decreases |fs|
      {
        var removed := EmptyPass(dev, start);
        if !removed {
          return;
        }
      }
    }

    /** One reading of the folder's entries, in any order. While it is removing entries it may miss some;
        if it removes none it sees them all. */
    method EmptyPass(dev: nat, ghost start: Tree) returns (removed: bool)
      requires name != [] && Emptying(start, fs, name, dev) && Open(start, dev, name)
      modifies this
      ensures name == old(name) && Emptying(start, fs, name, dev)
      ensures removed ==> |fs| < |old(fs)|
      ensures !removed ==> fs == Residue(start, name, dev)
      decreases |Below(start, name)|, 2
    {
      ghost var top := name;
      var names := Children(fs, name);
      var todo := names;
      removed := false;
      while todo != {}
        invariant name == top && Emptying(start, fs, top, dev) && todo <= names
        invariant forall k :: k in fs ==> k in old(fs)
        invariant removed ==> |fs| < |old(fs)|
        invariant |fs| <= |old(fs)|
        invariant forall d :: d in names - todo ==> Cleared(start, fs, top, dev, top + [d])
        decreases todo
      {
        if removed {
          if * {
            return;
          }
        }
        var d :| d in todo;
        todo := todo - {d};
        name := name + [d];
        var gone := DeleteEntry(dev, start, top);
        removed := removed || gone;
        name := name[..|name| - 1];
      }
      forall k | k in fs && Under(top, k) ensures k[|top|] in names {
        ChildrenCover(old(fs), top, k);
      }
      AllClearedIsResidue(start, fs, top, dev, names);
    }

    /** Deletes the entry named by the buffer, after emptying it if it is a folder of this device. */
    method DeleteEntry(dev: nat, ghost start: Tree, ghost top: Name) returns (gone: bool)
      requires top != [] && Under(top, name) && |name| == |top| + 1
      requires Emptying(start, fs, top, dev) && Open(start, dev, top)
      modifies this
      ensures name == old(name) && Emptying(start, fs, top, dev)
      ensures forall k :: k in fs ==> k in old(fs)
      ensures |fs| <= |old(fs)| && (gone ==> |fs| < |old(fs)|)
      ensures Cleared(start, fs, top, dev, name)
      decreases |Below(start, top)|, 1
    {
      gone := false;
      if name !in fs {
        NothingAt(fs, name);
      } else if fs[name].Dir? && fs[name].dev == dev {
        gone := DeleteFolder(dev, start, top);
      } else {
        gone := Unlink();
        if gone {
          FileHasNothingBelow(old(fs), name);
          RemovedWasFree(start, old(fs), top, dev, name);
        } else {
          NotUnlinkedMustStay(start, fs, top, dev, name);
        }
      }
    }

    method DeleteFolder(dev: nat, ghost start: Tree, ghost top: Name) returns (gone: bool)
      requires top != [] && Under(top, name) && |name| == |top| + 1
      requires Emptying(start, fs, top, dev) && Open(start, dev, top)
      requires name in fs && fs[name].Dir? && fs[name].dev == dev
      modifies this
      ensures name == old(name) && Emptying(start, fs, top, dev)
      ensures forall k :: k in fs ==> k in old(fs)
      ensures |fs| <= |old(fs)| && (gone ==> |fs| < |old(fs)|)
      ensures Cleared(start, fs, top, dev, name)
      decreases |Below(start, top)|, 0
    {
      FewerBelow(start, fs, top, name);
      ResidueWellFormed(fs, name, dev);
      ChildEmptied(start, fs, top, dev, name);
      EmptyDirLocal(dev);
      ghost var emptied := fs;
      NoMoreEntries(emptied, old(fs));
      gone := Rmdir();
      if gone {
        RemovedWasFree(start, emptied, top, dev, name);
      } else {
        NotRemovedMustStay(start, emptied, top, dev, name);
      }
    }

    method Rmdir() returns (ok: bool)
      modifies this`fs
      ensures ok == CanRmdir(old(fs), name)
      ensures fs == if ok then old(fs) - {name} else old(fs)
    {
      ok := CanRmdir(fs, name);
      if ok {
        fs := fs - {name};
      }
    }

    method Unlink() returns (ok: bool)
      modifies this`fs
      ensures ok == CanUnlink(old(fs), name)
      ensures fs == if ok then old(fs) - {name} else old(fs)
    {
      ok := CanUnlink(fs, name);
      if ok {
        fs := fs - {name};
      }
    }

    /** `removeRecursively`: the folder itself goes exactly when it can and nothing below it has to stay. */
    method RemoveRecursively() returns (ok: bool)
      requires WellFormed(fs) && name != []
      modifies this
      ensures var before := old(fs);
              if name in before && before[name].Dir? then
                && ok == (!before[name].locked && forall k :: k in before && Under(name, k) ==>
                    !Stays(before, name, before[name].dev, k))
                && fs == Residue(before, name, before[name].dev) - if ok then {name} else {}
              else !ok && fs == before
    {
      EmptyDirLocal(0);
      NothingBelow(fs, name);
      ok := Rmdir();
    }
  }

  lemma NothingBelow(t: Tree, top: Name)
    ensures Below(t, top) == {} <==> forall k :: k in t ==> !Under(top, k)
  {
    if Below(t, top) == {} {
      forall k | k in t ensures !Under(top, k) {
        assert k !in Below(t, top);
      }
    }
  }

  lemma PrefixPresent(t: Tree, c: Name, k: Name)
    requires WellFormed(t) && k in t && c <= k && c != []
    ensures c in t
  {
    assert k[..|c|] == c;
    assert |k| == |c| ==> k == c;
  }

  lemma NothingAt(t: Tree, c: Name)
    requires WellFormed(t) && c !in t && c != []
    ensures forall k :: k in t ==> !(c <= k)
  {
    forall k | k in t ensures !(c <= k) {
      if c <= k {
        PrefixPresent(t, c, k);
        assert false;
      }
    }
  }

  lemma NoMoreEntries(now: Tree, before: Tree)
    requires forall k :: k in now ==> k in before
    ensures |now| <= |before|
  {
    SubsetSize(now.Keys, before.Keys);
  }

  /** A second pass over what is left finds nothing more to delete. */
  lemma ResidueIsFinal(t: Tree, top: Name, dev: nat)
    requires WellFormed(t) && top != []
    ensures Residue(Residue(t, top, dev), top, dev) == Residue(t, top, dev)
  {
    var r := Residue(t, top, dev);
    ResidueWellFormed(t, top, dev);
    forall k | k in r && Under(top, k) ensures Stays(r, top, dev, k) {
      var m :| k <= m && Anchor(t, top, dev, m);
      assert Stays(t, top, dev, m);
      if !(t[m].locked || (t[m].Dir? && t[m].dev != dev)) {
        var n :| |top| <= n < |m| && !Open(t, dev, m[..n]);
        assert m[..n] in r;
        assert !Open(r, dev, m[..n]);
      }
      assert Anchor(r, top, dev, m);
    }
  }

  predicate OtherDevice(t: Tree, dev: nat, m: Name) {
    m in t && t[m].Dir? && t[m].dev != dev
  }

  /** Some folder from `top` on above `m` cannot be opened or is of another device. */
  ghost predicate ShutOff(t: Tree, top: Name, dev: nat, m: Name) {
    exists n :: |top| <= n < |m| && m[..n] in t && (!t[m[..n]].Dir? || !t[m[..n]].readable || t[m[..n]].dev != dev)
  }

  /** What is left below a folder, told from each entry: one that is locked, or is a folder of another device, or has
      a folder above it that cannot be opened or is of another device; and whatever is above such an entry. */
  lemma ResidueExactly(t: Tree, top: Name, dev: nat, k: Name)
    requires WellFormed(t) && top != [] && top in t && Under(top, k)
    ensures k in Residue(t, top, dev) <==>
            k in t && exists m :: k <= m && m in t && (t[m].locked || OtherDevice(t, dev, m) || ShutOff(t, top, dev, m))
  {
    if k in Residue(t, top, dev) {
      var m :| k <= m && Anchor(t, top, dev, m);
      if !Reached(t, top, dev, m) {
        var n :| |top| <= n < |m| && !Open(t, dev, m[..n]);
        assert m[..n] in t;
        assert ShutOff(t, top, dev, m);
      }
    }
    if m :| k <= m && m in t && (t[m].locked || OtherDevice(t, dev, m) || ShutOff(t, top, dev, m)) {
      if ShutOff(t, top, dev, m) {
        var n :| |top| <= n < |m| && m[..n] in t
                 && (!t[m[..n]].Dir? || !t[m[..n]].readable || t[m[..n]].dev != dev);
        assert !Open(t, dev, m[..n]);
      }
      assert Anchor(t, top, dev, m);
    }
  }

  /** Where nothing is locked, unreadable or on another device, nothing is left. */
  lemma FreeTreeIsEmptied(t: Tree, top: Name, dev: nat, k: Name)
    requires WellFormed(t) && top != [] && Open(t, dev, top)
    requires forall m :: m in t && Under(top, m) ==> !t[m].locked && (t[m].Dir? ==> t[m].readable && t[m].dev == dev)
    requires Under(top, k)
    ensures k !in Residue(t, top, dev)
  {
    forall m | k <= m ensures !Anchor(t, top, dev, m) {
      if m in t {
        forall n | |top| <= n < |m| ensures Open(t, dev, m[..n]) {
          assert m[..|top|] == top;
          assert m[..n] in t;
          assert n > |top| ==> Under(top, m[..n]);
        }
      }
    }
  }
}
