/**
 * The physical namespace the storage engine works on: every existing location
 * (a resolved key) mapped to a regular file or a directory, with the
 * operating-system primitives the engine calls (`create_dir_all`, `write`,
 * `remove_file`, `remove_dir_all`, `rename`, `copy`) as total functions on it.
 */
module Disk {
  import opened Wrappers
  import opened Types
  import opened Paths

  /** The bytes of a regular file; its length always fits a `u64`. */
  type Content = s: seq<Byte> | |s| < U64_LIMIT

  datatype Node = File(content: Content) | Dir

  type Tree = map<Key, Node>

  /** The tree after an operation, and what the operation returned. */
  datatype Outcome<T> = Outcome(tree: Tree, result: Result<T, FsError>)

  predicate IsDir(t: Tree, k: Key) {
    k in t && t[k].Dir?
  }

  predicate IsFile(t: Tree, k: Key) {
    k in t && t[k].File?
  }

  /** The root is a directory and every other entry sits in a directory. */
  ghost predicate Valid(t: Tree) {
    && IsDir(t, [])
    && (forall k | k in t :: IsKey(k))
    && (forall k, n | k + [n] in t :: IsDir(t, k))
  }

  /** The parent of an entry other than the root is a directory. */
  lemma ParentIsDir(t: Tree, k: Key)
    requires Valid(t) && k in t && k != []
    ensures IsDir(t, k[..|k| - 1])
  {
    assert k == k[..|k| - 1] + [k[|k| - 1]];
  }

  /** `Valid` from its parts, the parent condition stated entry by entry. */
  lemma ValidFrom(u: Tree)
    requires IsDir(u, []) && forall j | j in u :: IsKey(j)
    requires forall j | j in u && j != [] :: IsDir(u, j[..|j| - 1])
    ensures Valid(u)
  {
    forall k, n | k + [n] in u
      ensures IsDir(u, k)
    {
      var j := k + [n];
      assert j[..|j| - 1] == k;
    }
  }

  /** Every proper prefix of an existing entry is a directory. */
  lemma {:induction false} AncestorsAreDirs(t: Tree, k: Key, i: nat)
    requires Valid(t) && k in t && i < |k|
    ensures IsDir(t, k[..i])
    decreases |k|
  {
    var p := k[..|k| - 1];
    ParentIsDir(t, k);
    if i < |k| - 1 {
      AncestorsAreDirs(t, p, i);
      assert p[..i] == k[..i];
    }
  }

  /** Every proper prefix of an existing entry is a directory. */
  lemma AncestorIsDir(t: Tree, k: Key, a: Key)
    requires Valid(t) && k in t && a <= k && a != k
    ensures IsDir(t, a)
  {
    AncestorsAreDirs(t, k, |a|);
    assert k[..|a|] == a;
  }

  /** A regular file has nothing below it. */
  lemma FileIsLeaf(t: Tree, f: Key, k: Key)
    requires Valid(t) && IsFile(t, f) && k in t && f <= k
    ensures k == f
  {
    if k != f {
      AncestorIsDir(t, k, f);
    }
  }

  /** The entries directly inside `d`. */
  function Children(t: Tree, d: Key): (r: set<Key>)
    ensures forall k | k in r :: k in t && |k| == |d| + 1 && d <= k
  {
    set k | k in t && |k| == |d| + 1 && d <= k
  }

  /** `d` and everything below it. */
  function Subtree(t: Tree, d: Key): (r: set<Key>)
    ensures forall k | k in r :: k in t && d <= k
  {
    set k | k in t && d <= k
  }

  function Prefixes(k: Key): (r: set<Key>)
    ensures forall j | j in r :: j <= k
  {
    set i | 0 <= i <= |k| :: k[..i]
  }

  // ---------------------------------------------------------------------------
  // create_dir_all

  /**
   * `create_dir_all`: succeeds unless some prefix of `k` (itself included) is a
   * regular file, and then adds every missing prefix as a directory. In a valid
   * tree the first prefix that is a file fails the first `mkdir`, so a failure
   * creates nothing.
   */
  function CreateDirAll(t: Tree, k: Key): (r: Result<Tree, FsError>)
    ensures r.Err? <==> exists i | 0 <= i <= |k| :: IsFile(t, k[..i])
    ensures r.Err? ==> r.error == IoFailure
    ensures r.Ok? ==> forall i | 0 <= i <= |k| :: IsDir(r.value, k[..i])
    ensures r.Ok? ==> IsDir(r.value, k)
    ensures r.Ok? ==> forall j | j in t :: j in r.value && r.value[j] == t[j]
    ensures r.Ok? ==> forall j | j in r.value && j !in t :: j <= k && r.value[j] == Dir
  {
    if exists i | 0 <= i <= |k| :: IsFile(t, k[..i]) then Err(IoFailure)
    else
      var u := map j | j in t.Keys + Prefixes(k) :: if j in t then t[j] else Dir;
      assert forall i | 0 <= i <= |k| :: k[..i] in Prefixes(k);
      assert k[..|k|] == k;
      Ok(u)
  }

  lemma CreateDirAllValid(t: Tree, k: Key)
    requires Valid(t) && IsKey(k)
    ensures CreateDirAll(t, k).Ok? ==> Valid(CreateDirAll(t, k).value)
  {
    var r := CreateDirAll(t, k);
    if r.Ok? {
      var u := r.value;
      forall j | j in u
        ensures IsKey(j)
        ensures j != [] ==> IsDir(u, j[..|j| - 1])
      {
        if j !in t {
          assert j <= k;
          assert j == k[..|j|];
          if j != [] {
            assert j[..|j| - 1] == k[..|j| - 1];
          }
        } else if j != [] {
          ParentIsDir(t, j);
        }
      }
      ValidFrom(u);
    }
  }

  // ---------------------------------------------------------------------------
  // write, remove_file, remove_dir_all

  /**
   * `write` (create or truncate, then write): fails on a directory and when
   * the parent is missing or not a directory.
   */
  function WriteFile(t: Tree, k: Key, data: Content): (r: Result<Tree, FsError>)
    ensures r.Ok? <==> k != [] && !IsDir(t, k) && IsDir(t, k[..|k| - 1])
    ensures r.Ok? ==> r.value == t[k := File(data)]
    ensures r.Err? ==> r.error == IoFailure
  {
    if k == [] || IsDir(t, k) || !IsDir(t, k[..|k| - 1]) then Err(IoFailure)
    else Ok(t[k := File(data)])
  }

  lemma WriteFileValid(t: Tree, k: Key, data: Content)
    requires Valid(t) && IsKey(k)
    ensures WriteFile(t, k, data).Ok? ==> Valid(WriteFile(t, k, data).value)
  {
    if WriteFile(t, k, data).Ok? {
      var u := t[k := File(data)];
      forall j | j in u && j != []
        ensures IsDir(u, j[..|j| - 1])
      {
        if j != k {
          ParentIsDir(t, j);
        }
      }
      ValidFrom(u);
    }
  }

  /** `remove_file`: the entry goes, nothing else changes. */
  function RemoveFile(t: Tree, k: Key): (r: Tree)
    ensures r.Keys == t.Keys - {k}
    ensures forall j | j in r :: r[j] == t[j]
  {
    t - {k}
  }

  lemma RemoveFileValid(t: Tree, k: Key)
    requires Valid(t) && IsFile(t, k)
    ensures Valid(RemoveFile(t, k))
  {
    var u := RemoveFile(t, k);
    forall j | j in u && j != []
      ensures IsDir(u, j[..|j| - 1])
    {
      ParentIsDir(t, j);
    }
    ValidFrom(u);
  }

  /** Everything in `t` outside the subtree of `d`. */
  function Without(t: Tree, d: Key): (r: Tree)
    ensures forall j :: j in r <==> j in t && !(d <= j)
    ensures forall j | j in r :: r[j] == t[j]
  {
    map j | j in t && !(d <= j) :: t[j]
  }

  /**
   * `remove_dir_all`: the subtree of `d` goes. The root itself cannot be
   * removed: its contents go and the final `rmdir` fails.
   */
  function RemoveAll(t: Tree, d: Key): (r: Outcome<()>)
    ensures d != [] ==> r == Outcome(Without(t, d), Ok(()))
    ensures d == [] ==> r.tree == map[[] := Dir] && r.result == Err(IoFailure)
  {
    if d == [] then Outcome(map[[] := Dir], Err(IoFailure))
    else Outcome(Without(t, d), Ok(()))
  }

  lemma WithoutValid(t: Tree, d: Key)
    requires Valid(t) && d != []
    ensures Valid(Without(t, d))
  {
    var u := Without(t, d);
    forall j | j in u && j != []
      ensures IsDir(u, j[..|j| - 1])
    {
      ParentIsDir(t, j);
    }
    ValidFrom(u);
  }

  // ---------------------------------------------------------------------------
  // rename

  /** `from`'s subtree moved under `to`, replacing whatever `to` held. */
  function MoveSubtree(t: Tree, from: Key, to: Key): (r: Tree)
  {
    var kept := map j | j in t && !(from <= j) && !(to <= j) :: t[j];
    var targets := set j | j in t && from <= j :: to + j[|from|..];
    var moved := map j | j in targets && to <= j && from + j[|to|..] in t :: t[from + j[|to|..]];
    kept + moved
  }

  /** An entry of the source subtree reappears under the target. */
  lemma MoveSubtreeAt(t: Tree, from: Key, to: Key, s: Key)
    requires from + s in t
    ensures var u := MoveSubtree(t, from, to); to + s in u && u[to + s] == t[from + s]
  {
    var j := from + s;
    assert j[|from|..] == s;
    assert (to + s)[|to|..] == s;
  }

  /** An entry outside both subtrees stays as it was. */
  lemma MoveSubtreeKeeps(t: Tree, from: Key, to: Key, j: Key)
    requires j in t && !(from <= j) && !(to <= j)
    ensures var u := MoveSubtree(t, from, to); j in u && u[j] == t[j]
  {
  }

  /** Every entry of the result is kept or moved. */
  lemma MoveSubtreeFrom(t: Tree, from: Key, to: Key, j: Key)
    requires j in MoveSubtree(t, from, to)
    ensures var u := MoveSubtree(t, from, to);
      || (to <= j && from + j[|to|..] in t && u[j] == t[from + j[|to|..]])
      || (j in t && !(from <= j) && !(to <= j) && u[j] == t[j])
  {
  }

  predicate HasChildren(t: Tree, d: Key) {
    exists k | k in t :: |k| == |d| + 1 && d <= k
  }

  /**
   * `rename(2)`: renaming onto itself does nothing; it fails for the root, for
   * a directory into its own subtree, when the new parent is not a directory,
   * for a file onto a directory, a directory onto a file and a directory onto a
   * non-empty directory; otherwise the subtree moves and replaces the target.
   */
  function Rename(t: Tree, from: Key, to: Key): (r: Result<Tree, FsError>)
    ensures r.Err? ==> r.error == IoFailure
    ensures from !in t ==> r.Err?
    ensures from == to && from in t ==> r == Ok(t)
  {
    if from !in t then Err(IoFailure)
    else if from == to then Ok(t)
    else if from == [] || from <= to then Err(IoFailure)
    else if to == [] || !IsDir(t, to[..|to| - 1]) then Err(IoFailure)
    else if to in t && t[from].File? && t[to].Dir? then Err(IoFailure)
    else if to in t && t[from].Dir? && t[to].File? then Err(IoFailure)
    else if to in t && t[to].Dir? && HasChildren(t, to) then Err(IoFailure)
    else Ok(MoveSubtree(t, from, to))
  }

  /** A rename onto an ancestor of the source fails: the ancestor is a non-empty directory. */
  lemma RenameOntoAncestorFails(t: Tree, from: Key, to: Key)
    requires Valid(t) && from in t && to <= from && to != from
    ensures Rename(t, from, to).Err?
  {
    var c := from[..|to| + 1];
    AncestorIsDir(t, from, to);
    if c != from {
      AncestorIsDir(t, from, c);
    }
    assert c in t && |c| == |to| + 1 && to <= c;
  }

  /** What a successful rename does: the source subtree now lives under the target. */
  lemma RenameMoves(t: Tree, from: Key, to: Key)
    requires Valid(t)
    requires Rename(t, from, to).Ok? && from != to
    ensures var u := Rename(t, from, to).value;
      && from !in u
      && to in u && u[to] == t[from]
      && (forall s :: from + s in t ==> to + s in u && u[to + s] == t[from + s])
      && (forall j | j in t && !(from <= j) && !(to <= j) :: j in u && u[j] == t[j])
  {
    var u := MoveSubtree(t, from, to);
    forall s | from + s in t
      ensures to + s in u && u[to + s] == t[from + s]
    {
      MoveSubtreeAt(t, from, to, s);
    }
    assert from + [] == from && to + [] == to;
    forall j | j in t && !(from <= j) && !(to <= j)
      ensures j in u && u[j] == t[j]
    {
      MoveSubtreeKeeps(t, from, to, j);
    }
    if to <= from {
      RenameOntoAncestorFails(t, from, to);
    }
    if from in u {
      MoveSubtreeFrom(t, from, to, from);
    }
  }

  lemma MoveSubtreeValid(t: Tree, from: Key, to: Key)
    requires Valid(t) && IsKey(to)
    requires Rename(t, from, to).Ok? && from != to
    ensures Valid(Rename(t, from, to).value)
  {
    var u := MoveSubtree(t, from, to);
    var pt := to[..|to| - 1];
    MoveSubtreeKeeps(t, from, to, pt);
    forall j | j in u
      ensures IsKey(j)
      ensures j != [] ==> IsDir(u, j[..|j| - 1])
    {
      MoveSubtreeFrom(t, from, to, j);
      if to <= j {
        MoveDirParent(t, from, to, j);
      } else if j != [] {
        var p := j[..|j| - 1];
        ParentIsDir(t, j);
        assert !(from <= p) && !(to <= p);
        MoveSubtreeKeeps(t, from, to, p);
      }
    }
    MoveSubtreeKeeps(t, from, to, []);
    ValidFrom(u);
  }

  /** A moved entry is a key whose parent is a directory of the result. */
  lemma MoveDirParent(t: Tree, from: Key, to: Key, j: Key)
    requires Valid(t) && IsKey(to)
    requires Rename(t, from, to).Ok? && from != to
    requires to <= j && from + j[|to|..] in t
    ensures IsKey(j)
    ensures j != [] ==> IsDir(MoveSubtree(t, from, to), j[..|j| - 1])
  {
    var s := j[|to|..];
    assert j == to + s;
    var src := from + s;
    assert IsKey(src);
    assert forall i | 0 <= i < |s| :: s[i] == src[|from| + i];
    if s != [] {
      var ps := s[..|s| - 1];
      ParentIsDir(t, src);
      assert src[..|src| - 1] == from + ps;
      assert j[..|j| - 1] == to + ps;
      MoveSubtreeAt(t, from, to, ps);
    } else {
      var pt := to[..|to| - 1];
      assert j[..|j| - 1] == pt;
      MoveSubtreeKeeps(t, from, to, pt);
    }
  }

  // ---------------------------------------------------------------------------
  // copy

  /**
   * `copy`: the source must be a regular file; the target is created or
   * truncated first, so copying a file onto itself leaves it empty.
   */
  function Copy(t: Tree, from: Key, to: Key): (r: Result<Tree, FsError>)
    ensures r.Ok? <==> IsFile(t, from) && to != [] && !IsDir(t, to) && IsDir(t, to[..|to| - 1])
    ensures r.Ok? ==> r.value == t[to := File(if from == to then [] else t[from].content)]
    ensures r.Err? ==> r.error == IoFailure
  {
    if !IsFile(t, from) then Err(IoFailure)
    else WriteFile(t, to, if from == to then [] else t[from].content)
  }

  // ---------------------------------------------------------------------------
  // Sizes

  function NodeBytes(n: Node): (r: nat)
    ensures r == if n.File? then |n.content| else 0
  {
    match n
    case File(c) => |c|
    case Dir => 0
  }

  /** The bytes of the regular files among `s`. */
  ghost function SumBytes(t: Tree, s: set<Key>): nat
    requires s <= t.Keys
    decreases s
  {
    if s == {} then 0
    else
      var k :| k in s;
      NodeBytes(t[k]) + SumBytes(t, s - {k})
  }

  /** The sum does not depend on which entry is taken first. */
  lemma {:induction false} SumBytesRemove(t: Tree, s: set<Key>, k: Key)
    requires s <= t.Keys && k in s
    ensures SumBytes(t, s) == NodeBytes(t[k]) + SumBytes(t, s - {k})
    decreases s
  {
    var x :| x in s && SumBytes(t, s) == NodeBytes(t[x]) + SumBytes(t, s - {x});
    if x != k {
      SumBytesRemove(t, s - {x}, k);
      SumBytesRemove(t, s - {k}, x);
      assert s - {x} - {k} == s - {k} - {x};
    }
  }

  /** What `WalkDir` adds up: the regular files in the subtree of `d`, `d` included. */
  ghost function SubtreeBytes(t: Tree, d: Key): nat
  {
    SumBytes(t, Subtree(t, d))
  }

  /** The subtree of a regular file is the file alone. */
  lemma SubtreeOfFile(t: Tree, f: Key)
    requires Valid(t) && IsFile(t, f)
    ensures SubtreeBytes(t, f) == |t[f].content|
  {
    forall k | k in Subtree(t, f) ensures k == f {
      FileIsLeaf(t, f, k);
    }
    assert Subtree(t, f) == {f};
    SumBytesRemove(t, {f}, f);
    assert {f} - {f} == {};
  }

  /** An empty directory holds no bytes. */
  lemma SubtreeOfEmptyDir(t: Tree, d: Key)
    requires Valid(t) && IsDir(t, d) && !HasChildren(t, d)
    ensures SubtreeBytes(t, d) == 0
  {
    forall k | k in Subtree(t, d) ensures k == d {
      if k != d {
        AncestorsAreDirs(t, k, |d| + 1);
      }
    }
    assert Subtree(t, d) == {d};
    SumBytesRemove(t, {d}, d);
    assert {d} - {d} == {};
  }
}
