/** The files the updater touches, and the one primitive it moves them with. */
module FileSystem {

  import opened Wrappers

  /** The three folders the updater works in; `rel` is a path below one of them. */
  datatype Root = App | Update | Backup
  datatype Path = Path(root: Root, rel: string)

  type Content = string
  type Files = map<Path, Content>

  /** What `rename` does when the target exists: the Windows build refuses, the POSIX build replaces. */
  datatype Policy = Refuse | Replace

  /** `NoEntry` is ENOENT; every other errno is treated alike by the updater. */
  datatype Errno = Success | NoEntry | OtherError

  function At(fs: Files, q: Path): Option<Content> {
    if q in fs then Some(fs[q]) else None
  }

  /** `fault` stands for a failure the file contents do not determine (a permission, a full disk). */
  function Rename(policy: Policy, fs: Files, src: Path, dst: Path, fault: bool): (r: (Files, Errno))
    requires src != dst
    ensures r.1 == Success <==> src in fs && !fault && (policy != Refuse || dst !in fs)
    ensures r.1 == NoEntry <==> src !in fs
    ensures r.1 != Success ==> r.0 == fs
    ensures forall q :: r.1 == Success ==>
              At(r.0, q) == if q == dst then At(fs, src) else if q == src then None else At(fs, q)
  {
    if src !in fs then (fs, NoEntry)
    else if fault || (policy == Refuse && dst in fs) then (fs, OtherError)
    else ((fs - {src})[dst := fs[src]], Success)
  }

  lemma SameEverywhere(a: Files, b: Files)
    requires forall q :: At(a, q) == At(b, q)
    ensures a == b
  {
    forall q ensures q in a <==> q in b {
      assert At(a, q) == At(b, q);
    }
    forall q | q in a ensures a[q] == b[q] {
      assert At(a, q) == At(b, q);
    }
  }

  /** The places holding content `c`. */
  function Holders(fs: Files, c: Content): set<Path> {
    set q | q in fs && fs[q] == c
  }

  /** The same contents, each stored the same number of times, wherever they are. */
  ghost predicate SameContents(a: Files, b: Files) {
    forall c :: |Holders(a, c)| == |Holders(b, c)|
  }

  /** A refusing rename never destroys content: it moves it or leaves everything alone. */
  lemma RefusingRenameConserves(fs: Files, src: Path, dst: Path, fault: bool)
    requires src != dst
    ensures SameContents(fs, Rename(Refuse, fs, src, dst, fault).0)
  {
    var r := Rename(Refuse, fs, src, dst, fault);
    if r.1 == Success {
      forall c ensures |Holders(fs, c)| == |Holders(r.0, c)| {
        if fs[src] == c {
          assert Holders(r.0, c) == Holders(fs, c) - {src} + {dst};
        } else {
          assert Holders(r.0, c) == Holders(fs, c);
        }
      }
    }
  }
}
