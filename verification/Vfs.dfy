/** The mount table: a linked list searched first-match that acts as a longest-prefix router. */
module Vfs {
  import opened Options

  /** The errors of the table itself, and whatever a volume's own method raises. */
  datatype Error = ENODEV | EPERM | EINVAL | OfVolume(code: int)

  datatype Result<+T> = Ok(value: T) | Raise(error: Error)

  // ---------- Mount points and paths ----------

  predicate IsAbsolute(path: string) { |path| > 0 && path[0] == '/' }

  predicate IsRoot(m: string) { |m| == 1 }

  /** m is path or one of the directories above it. */
  predicate IsAbove(m: string, path: string) {
    |m| <= |path| && path[..|m|] == m && (|path| == |m| || path[|m|] == '/')
  }

  /** A mount at m serves path; the root mount serves every absolute path. */
  predicate Serves(m: string, path: string) { IsRoot(m) || IsAbove(m, path) }

  /** No non-root mount point lies above (or equals) a later one, and root mounts come last. */
  ghost predicate Ordered(mounts: seq<string>) {
    && (forall i :: 0 <= i < |mounts| ==> IsAbsolute(mounts[i]))
    && (forall i, j :: 0 <= i < j < |mounts| && !IsRoot(mounts[j]) ==>
          !IsRoot(mounts[i]) && !IsAbove(mounts[i], mounts[j]))
  }

  /** The first mount point that serves path, by position. */
  function FirstServing(mounts: seq<string>, path: string): (r: Option<nat>)
    ensures r.Some? ==> r.value < |mounts| && Serves(mounts[r.value], path)
    ensures r.Some? ==> forall i :: 0 <= i < r.value ==> !Serves(mounts[i], path)
    ensures r.None? ==> forall i :: 0 <= i < |mounts| ==> !Serves(mounts[i], path)
  {
    if mounts == [] then None
    else if Serves(mounts[0], path) then Some(0)
    else
      var rest := FirstServing(mounts[1..], path);
      if rest.Some? then Some(rest.value + 1) else None
  }

  /** Two mount points above the same path: the longer is below the shorter. */
  lemma AboveIsLinear(m: string, n: string, path: string)
    requires IsAbove(m, path) && IsAbove(n, path) && |m| <= |n|
    ensures IsAbove(m, n)
  {
    assert n[..|m|] == path[..|n|][..|m|] == path[..|m|];
    if |m| < |n| { assert n[|m|] == path[..|n|][|m|]; }
  }

  /** First match is longest match, and a non-root match is the only one of its length. */
  lemma FirstMatchIsLongest(mounts: seq<string>, path: string, j: nat)
    requires Ordered(mounts) && j < |mounts| && Serves(mounts[j], path)
    ensures var r := FirstServing(mounts, path);
            && r.Some?
            && |mounts[j]| <= |mounts[r.value]|
            && (|mounts[j]| == |mounts[r.value]| && !IsRoot(mounts[j]) ==> j == r.value)
  {
    var i := FirstServing(mounts, path).value;
    if i < j && !IsRoot(mounts[j]) && |mounts[i]| <= |mounts[j]| {
      AboveIsLinear(mounts[i], mounts[j], path);
      assert false;
    }
  }

  // ---------- Insertion and refusal ----------

  /** Where the root mounts start. */
  function FirstRoot(mounts: seq<string>): (k: nat)
    ensures k <= |mounts| && (k < |mounts| ==> IsRoot(mounts[k]))
    ensures forall i :: 0 <= i < k ==> !IsRoot(mounts[i])
  {
    if mounts == [] || IsRoot(mounts[0]) then 0 else 1 + FirstRoot(mounts[1..])
  }

  function Insert<T>(s: seq<T>, k: nat, x: T): seq<T>
    requires k <= |s|
  {
    s[..k] + [x] + s[k..]
  }

  function Remove<T>(s: seq<T>, k: nat): seq<T>
    requires k < |s|
  {
    s[..k] + s[k + 1..]
  }

  /** The check made before mounting at m. */
  predicate Refused(mounts: seq<string>, m: string) {
    m != "/" && FirstServing(mounts, m).Some? && !IsRoot(mounts[FirstServing(mounts, m).value])
  }

  /** A mount is refused exactly when a non-root mount point lies above it or equals it. */
  lemma RefusedExactlyWhenCovered(mounts: seq<string>, m: string)
    requires Ordered(mounts) && IsAbsolute(m)
    ensures Refused(mounts, m) <==>
              !IsRoot(m) && exists i :: 0 <= i < |mounts| && !IsRoot(mounts[i]) && IsAbove(mounts[i], m)
  {
    if !IsRoot(m) {
      if i :| 0 <= i < |mounts| && !IsRoot(mounts[i]) && IsAbove(mounts[i], m) {
        FirstMatchIsLongest(mounts, m, i);
      }
    } else {
      assert m == "/";
    }
  }

  lemma RootsFromHere(mounts: seq<string>, j: nat)
    requires Ordered(mounts) && FirstRoot(mounts) <= j < |mounts|
    ensures IsRoot(mounts[j])
  {
    hide IsAbove, FirstRoot;
    var k := FirstRoot(mounts);
    if k < j { assert IsRoot(mounts[k]); }
  }

  lemma MountKeepsOrder(mounts: seq<string>, m: string)
    requires Ordered(mounts) && IsAbsolute(m) && !Refused(mounts, m)
    ensures Ordered(Insert(mounts, FirstRoot(mounts), m))
  {
    RefusedExactlyWhenCovered(mounts, m);
    var k := FirstRoot(mounts);
    var after := Insert(mounts, k, m);
    forall j | k < j < |after| ensures IsRoot(after[j]) {
      assert after[j] == mounts[j - 1];
      RootsFromHere(mounts, j - 1);
    }
    forall i, j | 0 <= i < j < |after| && !IsRoot(after[j])
      ensures !IsRoot(after[i]) && !IsAbove(after[i], after[j])
    {
      if j < k { assert after[j] == mounts[j] && after[i] == mounts[i]; }
    }
  }

  lemma UmountKeepsOrder(mounts: seq<string>, k: nat)
    requires Ordered(mounts) && k < |mounts|
    ensures Ordered(Remove(mounts, k))
  {
    var after := Remove(mounts, k);
    forall i, j | 0 <= i < j < |after| && !IsRoot(after[j])
      ensures !IsRoot(after[i]) && !IsAbove(after[i], after[j])
    {
      assert after[i] == mounts[if i < k then i else i + 1] && after[j] == mounts[if j < k then j else j + 1];
    }
  }

  /** A fresh mount takes over exactly the paths it serves that no longer mount point serves. */
  lemma MountReroutes(mounts: seq<string>, m: string, path: string)
    requires Ordered(mounts) && IsAbsolute(m) && !Refused(mounts, m) && IsAbsolute(path)
    ensures var k := FirstRoot(mounts);
            var was, now := FirstServing(mounts, path), FirstServing(Insert(mounts, k, m), path);
            if Serves(m, path) && (was.None? || |mounts[was.value]| <= |m|) then now == Some(k)
            else if was.None? || was.value < k then now == was
            else now == Some(was.value + 1)
  {
    hide Serves, FirstRoot, Ordered, Refused, IsAbsolute, Insert, FirstServing;
    var was := FirstServing(mounts, path);
    if was.Some? {
      if Serves(m, path) { ServedBeforeAndNow(mounts, m, path, was.value); }
      HitMoves(mounts, m, path, was.value);
    } else {
      MissMoves(mounts, m, path);
    }
  }

  lemma MissMoves(mounts: seq<string>, m: string, path: string)
    requires FirstServing(mounts, path).None?
    ensures var k := FirstRoot(mounts);
            FirstServing(Insert(mounts, k, m), path) == if Serves(m, path) then Some(k) else None
  {
    hide Serves, FirstRoot;
    var k := FirstRoot(mounts);
    var after := Insert(mounts, k, m);
    if Serves(m, path) { FirstIs(after, path, k); }
  }

  lemma HitMoves(mounts: seq<string>, m: string, path: string, i: nat)
    requires FirstServing(mounts, path) == Some(i)
    ensures var k := FirstRoot(mounts);
            FirstServing(Insert(mounts, k, m), path) ==
              if i < k then Some(i) else if Serves(m, path) then Some(k) else Some(i + 1)
  {
    hide Serves;
    var k := FirstRoot(mounts);
    var after := Insert(mounts, k, m);
    FirstIs(after, path, if i < k then i else if Serves(m, path) then k else i + 1);
  }

  /** A longer mount point that serves the path stands before the roots, a shorter one is a root. */
  lemma ServedBeforeAndNow(mounts: seq<string>, m: string, path: string, i: nat)
    requires Ordered(mounts) && IsAbsolute(m) && !Refused(mounts, m) && Serves(m, path)
    requires FirstServing(mounts, path) == Some(i)
    ensures |mounts[i]| <= |m| <==> FirstRoot(mounts) <= i
  {
    if FirstRoot(mounts) <= i { RootsFromHere(mounts, i); }
    if i < FirstRoot(mounts) && |mounts[i]| <= |m| {
      NotBoth(mounts, m, path, i);
      assert false;
    }
  }

  lemma NotBoth(mounts: seq<string>, m: string, path: string, i: nat)
    requires Ordered(mounts) && IsAbsolute(m) && !Refused(mounts, m) && i < |mounts|
    requires Serves(m, path) && Serves(mounts[i], path) && !IsRoot(mounts[i])
    ensures |m| < |mounts[i]|
  {
    if |mounts[i]| <= |m| {
      assert 1 < |mounts[i]| <= |m|;
      AboveIsLinear(mounts[i], m, path);
      RefusedExactlyWhenCovered(mounts, m);
      assert false;
    }
  }

  // ---------- The table in memory ----------

  class Node {
    const str: string
    const obj: int
    var next: Node?

    constructor (str: string, obj: int)
      ensures this.str == str && this.obj == obj && next == null
    {
      this.str := str;
      this.obj := obj;
      next := null;
    }
  }

  /** MP_VFS_NONE, MP_VFS_ROOT, or a mounted volume. */
  datatype Volume = NoVolume | RootVolume | Mounted(node: Node)

  /** What umount is given: a path, or the object that was mounted. */
  datatype Target = ByPath(path: string) | ByObject(obj: int)

  predicate IsTarget(n: Node, t: Target) { if t.ByPath? then t.path == n.str else t.obj == n.obj }

  /** The chdir call passed on to a volume, if any. */
  datatype Call = NoCall | Chdir(node: Node, arg: string)

  function Names(nodes: seq<Node>): (s: seq<string>)
    ensures |s| == |nodes| && forall i :: 0 <= i < |s| ==> s[i] == nodes[i].str
  {
    seq(|nodes|, i requires 0 <= i < |nodes| => nodes[i].str)
  }

  /** The path handed to the volume mounted at m: relative paths stay as they are for the root. */
  function WithinVolume(m: string, path: string, full: string): string {
    if IsRoot(m) then path else if |full| <= |m| then "/" else full[|m|..]
  }

  ghost predicate Distinct(nodes: seq<Node>) { forall i, j :: 0 <= i < j < |nodes| ==> nodes[i] != nodes[j] }

  function NodeIn(nodes: seq<Node>, i: nat): Node? { if i < |nodes| then nodes[i] else null }

  ghost predicate Chained(nodes: seq<Node>)
    reads nodes
  {
    forall i :: 0 <= i < |nodes| ==> nodes[i].next == NodeIn(nodes, i + 1)
  }

  class MountTable {
    var head: Node?
    var cur: Volume
    ghost var nodes: seq<Node>

    ghost function NodeAt(i: nat): Node?
      reads this`nodes
    {
      NodeIn(nodes, i)
    }

    /** nodes is the list from head. */
    ghost predicate Linked()
      reads this`head, this`nodes, nodes
    {
      Distinct(nodes) && head == NodeAt(0) && Chained(nodes)
    }

    ghost predicate Valid()
      reads this, nodes
    {
      Linked() && Ordered(Names(nodes)) && (cur.Mounted? ==> cur.node in nodes)
    }

    constructor ()
      ensures Valid() && nodes == [] && cur == RootVolume
    {
      head, cur, nodes := null, RootVolume, [];
    }

    /** The volume that serves path, and the path within it. */
    ghost function Lookup(path: string): (Volume, string)
      reads this
    {
      var full := if IsAbsolute(path) then path else "/" + path;
      if !IsAbsolute(path) && cur != RootVolume then (cur, path)
      else if full == "/" then (RootVolume, "")
      else
        var hit := FirstServing(Names(nodes), full);
        if hit.Some? then (Mounted(nodes[hit.value]), WithinVolume(nodes[hit.value].str, path, full))
        else if IsAbsolute(path) then (NoVolume, "")
        else (RootVolume, path)
    }

    /** The loop over the list: p is the path without its leading slash. */
    method Search(path: string, p: string) returns (hit: Node?, out: string)
      requires Linked() && Ordered(Names(nodes))
      ensures var r := FirstServing(Names(nodes), "/" + p);
              if r.None? then hit == null
              else hit == nodes[r.value] && out == WithinVolume(nodes[r.value].str, path, "/" + p)
    {
      hide Serves, WithinVolume;
      ghost var i := 0;
      var vfs := head;
      while vfs != null
        invariant i <= |nodes| && vfs == NodeAt(i)
        invariant forall j :: 0 <= j < i ==> !Serves(nodes[j].str, "/" + p)
        decreases |nodes| - i
      {
        var found, rest := PathOnNode(vfs, path, p);
        if found {
          FirstIs(Names(nodes), "/" + p, i);
          return vfs, rest;
        }
        vfs := vfs.next;
        i := i + 1;
      }
      return null, "";
    }

    method PathOnNode(vfs: Node, path: string, p: string) returns (found: bool, out: string)
      requires IsAbsolute(vfs.str)
      ensures found <==> Serves(vfs.str, "/" + p)
      ensures found ==> out == WithinVolume(vfs.str, path, "/" + p)
    {
      TailMatches(vfs.str, p);
      var len := |vfs.str| - 1;
      if len == 0 { return true, path; }
      if len <= |p| && p[..len] == vfs.str[1..] {
        if len < |p| && p[len] == '/' {
          return true, p[len..];
        } else if len == |p| {
          return true, "/";
        }
      }
      return false, "";
    }

    method LookupPath(path: string) returns (v: Volume, out: string)
      requires Linked() && Ordered(Names(nodes))
      ensures (v, out) == Lookup(path)
    {
      hide WithinVolume, Ordered;
      if IsAbsolute(path) || cur == RootVolume {
        var p := if IsAbsolute(path) then path[1..] else path;
        assert IsAbsolute(path) ==> path == "/" + p;
        if p == "" { return RootVolume, ""; }
        assert |"/" + p| > 1;
        var hit, rest := Search(path, p);
        if hit != null { return Mounted(hit), rest; }
        if IsAbsolute(path) { return NoVolume, ""; }
      }
      return cur, path;
    }

    /** The first node of length 1, if any, and the one before it. */
    method FindRoot() returns (prev: Node?, at: Node?, ghost k: nat)
      requires Linked()
      ensures k == FirstRoot(Names(nodes)) && at == NodeAt(k)
      ensures prev == if k == 0 then null else NodeAt(k - 1)
    {
      prev, at, k := null, head, 0;
      while at != null && |at.str| != 1
        invariant k <= |nodes| && at == NodeAt(k)
        invariant prev == if k == 0 then null else NodeAt(k - 1)
        invariant forall j :: 0 <= j < k ==> !IsRoot(nodes[j].str)
        decreases |nodes| - k
      {
        prev, at, k := at, at.next, k + 1;
      }
      FirstRootIs(Names(nodes), k);
    }

    /** Puts vfs between prev and at. */
    method Link(vfs: Node, prev: Node?, at: Node?, ghost k: nat)
      requires Linked() && vfs !in nodes && k <= |nodes|
      requires at == NodeAt(k) && prev == if k == 0 then null else NodeAt(k - 1)
      modifies this`head, this`nodes, vfs, nodes
      ensures Linked() && nodes == Insert(old(nodes), k, vfs)
    {
      hide Distinct, Insert;
      ghost var before := nodes;
      LastIs(before, k);
      vfs.next := at;
      if prev == null { head := vfs; } else { prev.next := vfs; }
      nodes := Insert(nodes, k, vfs);
      InsertDistinct(before, k, vfs);
      InsertChains(before, k, vfs);
    }

    /** answer is the error the volume's own mount method raises, if any; it is asked before
        the table is looked at. */
    method Mount(obj: int, str: string, answer: Option<int>) returns (r: Result<()>)
      requires Valid() && IsAbsolute(str)
      modifies this`head, this`nodes, nodes
      ensures Valid() && cur == old(cur)
      ensures r == if answer.Some? then Raise(OfVolume(answer.value))
                   else if Refused(old(Names(nodes)), str) then Raise(EPERM) else Ok(())
      ensures r.Raise? ==> nodes == old(nodes)
      ensures r.Ok? ==> MountsAt(old(nodes), nodes, FirstRoot(old(Names(nodes))), str, obj)
      ensures forall n <- nodes :: n in old(nodes) || fresh(n)
    {
      hide Ordered, Refused, WithinVolume, Linked, FirstServing, FirstRoot, Serves, Lookup;
      var vfs := new Node(str, obj);
      if answer.Some? { return Raise(OfVolume(answer.value)); }
      var existing, out := LookupPath(str);
      RefusedIs(this, str);
      if existing != NoVolume && existing != RootVolume {
        if |vfs.str| != 1 && |existing.node.str| == 1 {
        } else {
          return Raise(EPERM);
        }
      }
      ghost var before := nodes;
      MountKeepsOrder(Names(nodes), str);
      var prev, at, k := FindRoot();
      Link(vfs, prev, at, k);
      assert Names(nodes) == Insert(Names(before), k, str);
      return Ok(());
    }

    /** The first node umount is asked for, if any, and the one before it. */
    method FindTarget(t: Target) returns (prev: Node?, at: Node?, ghost k: nat)
      requires Linked()
      ensures k <= |nodes| && at == NodeAt(k) && (k < |nodes| ==> IsTarget(nodes[k], t))
      ensures prev == if k == 0 then null else NodeAt(k - 1)
      ensures forall j :: 0 <= j < k ==> !IsTarget(nodes[j], t)
    {
      prev, at, k := null, head, 0;
      while at != null && !IsTarget(at, t)
        invariant k <= |nodes| && at == NodeAt(k)
        invariant prev == if k == 0 then null else NodeAt(k - 1)
        invariant forall j :: 0 <= j < k ==> !IsTarget(nodes[j], t)
        decreases |nodes| - k
      {
        prev, at, k := at, at.next, k + 1;
      }
    }

    method Unlink(prev: Node?, at: Node, ghost k: nat)
      requires Linked() && k < |nodes|
      requires at == nodes[k] && prev == if k == 0 then null else NodeAt(k - 1)
      modifies this`head, this`nodes, nodes
      ensures Linked() && nodes == Remove(old(nodes), k)
    {
      hide Distinct, Remove;
      ghost var before := nodes;
      LastIs(before, k);
      if prev == null { head := at.next; } else { prev.next := at.next; }
      nodes := Remove(nodes, k);
      RemoveDistinct(before, k);
      RemoveChains(before, k);
    }

    /** The node is gone and the current volume switched before the volume's own umount
        method is asked, so they stay so whatever it answers. */
    method Umount(t: Target, answer: Option<int>) returns (r: Result<()>, ghost k: nat)
      requires Valid()
      modifies this, nodes
      ensures Valid()
      ensures var found := exists n <- old(nodes) :: IsTarget(n, t);
              r == if !found then Raise(EINVAL) else if answer.Some? then Raise(OfVolume(answer.value)) else Ok(())
      ensures r == Raise(EINVAL) ==> nodes == old(nodes) && cur == old(cur)
      ensures r != Raise(EINVAL) ==> k < old(|nodes|) && IsTarget(old(nodes)[k], t) && nodes == Remove(old(nodes), k)
      ensures r != Raise(EINVAL) ==> forall i :: 0 <= i < k ==> !IsTarget(old(nodes)[i], t)
      ensures r != Raise(EINVAL) ==>
                match t case ByPath(path) => old(nodes)[k].str == path case ByObject(obj) => old(nodes)[k].obj == obj
      ensures r != Raise(EINVAL) ==> cur == if old(cur) == Mounted(old(nodes)[k]) then RootVolume else old(cur)
    {
      hide Ordered, Linked, IsTarget;
      var prev, at;
      prev, at, k := FindTarget(t);
      if at == null { return Raise(EINVAL), k; }
      TargetIs(at, t);
      ghost var before := nodes;
      UmountKeepsOrder(Names(nodes), k);
      Unlink(prev, at, k);
      assert Names(nodes) == Remove(Names(before), k);
      if cur == Mounted(at) { cur := RootVolume; }
      assert cur.Mounted? ==> exists i :: 0 <= i < |before| && i != k && before[i] == cur.node;
      assert forall i :: 0 <= i < |before| && i != k ==> before[i] in nodes by { StaysIn(before, k); }
      if answer.Some? { return Raise(OfVolume(answer.value)), k; }
      return Ok(()), k;
    }

    /** Unmounting by path what was just mounted restores the table, even when it hid another root. */
    method MountThenUmount(obj: int, str: string) returns (r: Result<()>)
      requires Valid() && IsAbsolute(str)
      modifies this, nodes
      ensures Valid() && nodes == old(nodes)
      ensures cur == old(cur)
    {
      hide Ordered, Linked, Refused, IsTarget, FirstRoot, Lookup, Remove, Insert;
      ghost var before := nodes;
      ghost var names := Names(nodes);
      r := Mount(obj, str, None);
      if r.Ok? {
        ghost var after := nodes;
        ghost var k := FirstRoot(names);
        NewestIsFound(names, str);
        InsertThenRemove(before, k, after[k]);
        ghost var j;
        assert forall i :: 0 <= i < |nodes| ==> nodes[i] in before || fresh(nodes[i]);
        assert IsTarget(after[k], ByPath(str)) by { NameIsTarget(after[k]); }
        r, j := Umount(ByPath(str), None);
        FirstTarget(before, k, after, str, j);
        assert cur == old(cur);
      }
    }

    /** cur is set before the volume is asked. A path that is not found leaves no volume, and
        a volume that refuses, for a directory it does not have, is current all the same. */
    method ChangeDir(path: string, answer: Option<int>) returns (r: Result<Call>)
      requires Valid()
      modifies this`cur
      ensures Valid() && cur == old(Lookup(path)).0
      ensures r == Answered(old(ChdirCall(path)), answer)
    {
      hide Ordered, WithinVolume, Linked;
      LookupIsMounted(this, path);
      var v, out := LookupPath(path);
      cur := v;
      if v == NoVolume { return Raise(ENODEV); }
      if v == RootVolume {
        var prev, at, k := FindRoot();
        if at == null { return Ok(NoCall); }
        if answer.Some? { return Raise(OfVolume(answer.value)); }
        return Ok(Chdir(at, "/"));
      }
      if answer.Some? { return Raise(OfVolume(answer.value)); }
      return Ok(Chdir(v.node, out));
    }

    /** Which volume is asked to change directory, and to what; None is no volume at all. */
    ghost function ChdirCall(path: string): Option<Call>
      reads this
    {
      var (v, out) := Lookup(path);
      match v
      case NoVolume => None
      case RootVolume => var k := FirstRoot(Names(nodes)); Some(if k < |nodes| then Chdir(nodes[k], "/") else NoCall)
      case Mounted(n) => Some(Chdir(n, out))
    }

    /** A volume that raises is current afterwards: relative paths go to it. */
    method RefusedChangeDirSwitches(path: string, code: int, relative: string)
        returns (r: Result<Call>, v: Volume, out: string)
      requires Valid() && Lookup(path).0.Mounted? && !IsAbsolute(relative)
      modifies this`cur
      ensures r == Raise(OfVolume(code)) && v == old(Lookup(path)).0 && out == relative
    {
      hide Ordered, WithinVolume;
      r := ChangeDir(path, Some(code));
      v, out := LookupPath(relative);
    }

    /** After a chdir to an absolute path that no mount serves, relative paths find no
        volume either, whatever was current before. */
    method FailedChangeDirLosesVolume(path: string, relative: string) returns (r: Result<Call>, v: Volume)
      requires Valid() && IsAbsolute(path) && path != "/" && !IsAbsolute(relative)
      requires forall n <- nodes :: !Serves(n.str, path)
      modifies this`cur
      ensures r == Raise(ENODEV) && v == NoVolume
    {
      hide Serves, Ordered, WithinVolume;
      assert forall i :: 0 <= i < |nodes| ==> Names(nodes)[i] == nodes[i].str;
      assert Lookup(path).0 == NoVolume;
      var out;
      r := ChangeDir(path, None);
      v, out := LookupPath(relative);
    }
  }

  /** The outcome of a call when the volume raises answer, if it is asked. */
  function Answered(call: Option<Call>, answer: Option<int>): Result<Call> {
    if call.None? then Raise(ENODEV)
    else if call.value != NoCall && answer.Some? then Raise(OfVolume(answer.value))
    else Ok(call.value)
  }

  /** In every table that mount and umount can make, the lookup of an absolute path below
      "/" is the longest-prefix match, and fails only if no mount point serves it. */
  lemma RoutesByLongestPrefix(t: MountTable, path: string)
    requires t.Valid() && IsAbsolute(path) && path != "/"
    ensures t.Lookup(path).0 != RootVolume
    ensures t.Lookup(path).0 == NoVolume <==> forall n <- t.nodes :: !Serves(n.str, path)
    ensures t.Lookup(path).0.Mounted? ==> IsLongestMatch(t.nodes, t.Lookup(path).0.node, path, path, t.Lookup(path).1)
  {
    hide Ordered, Serves, WithinVolume, IsRoot;
    HitIsLongest(t, path, path);
  }

  /** While the current volume is the root, a relative path is looked up as if "/" stood before
      it, but a root mount gets it as it is; where nothing serves it, it stays with the root. */
  lemma RelativeFromRoot(t: MountTable, path: string)
    requires t.Valid() && t.cur == RootVolume && path != "" && !IsAbsolute(path)
    ensures t.Lookup(path).0 != NoVolume
    ensures t.Lookup(path).0 == RootVolume <==> forall n <- t.nodes :: !Serves(n.str, "/" + path)
    ensures t.Lookup(path).0 == RootVolume ==> t.Lookup(path).1 == path
    ensures t.Lookup(path).0.Mounted? ==>
              IsLongestMatch(t.nodes, t.Lookup(path).0.node, "/" + path, path, t.Lookup(path).1)
  {
    hide Ordered, Serves, WithinVolume, IsRoot;
    assert ("/" + path)[1..] == path;
    HitIsLongest(t, "/" + path, path);
  }

  /** Any other relative path goes to the current volume as it is; "/" is the root, and so is
      the empty path there. */
  lemma StaysWithVolume(t: MountTable, path: string)
    ensures !IsAbsolute(path) && t.cur != RootVolume ==> t.Lookup(path) == (t.cur, path)
    ensures path == "/" || (path == "" && t.cur == RootVolume) ==> t.Lookup(path).0 == RootVolume
  {
  }

  lemma HitIsLongest(t: MountTable, full: string, path: string)
    requires t.Valid() && IsAbsolute(full)
    ensures var hit := FirstServing(Names(t.nodes), full);
            && (hit.None? <==> forall n <- t.nodes :: !Serves(n.str, full))
            && (hit.Some? ==> var n := t.nodes[hit.value];
                  IsLongestMatch(t.nodes, n, full, path, WithinVolume(n.str, path, full)))
  {
    hide Ordered, Serves, WithinVolume, IsRoot;
    var mounts := Names(t.nodes);
    forall n <- t.nodes ensures n.str in mounts {
      var i :| 0 <= i < |t.nodes| && t.nodes[i] == n;
      assert mounts[i] == n.str;
    }
    var hit := FirstServing(mounts, full);
    if hit.Some? {
      forall n <- t.nodes | Serves(n.str, full) ensures |n.str| <= |mounts[hit.value]| {
        var i :| 0 <= i < |t.nodes| && t.nodes[i] == n;
        FirstMatchIsLongest(mounts, full, i);
      }
      WithinIs(mounts[hit.value], path, full);
    }
  }

  /** n serves the path, nothing longer does, and n's name and out rebuild it; a root mount
      gets path as it was given. */
  ghost predicate IsLongestMatch(nodes: seq<Node>, n: Node, full: string, path: string, out: string) {
    && n in nodes && Serves(n.str, full)
    && (forall o <- nodes :: Serves(o.str, full) ==> |o.str| <= |n.str|)
    && (if IsRoot(n.str) then out == path else if n.str == full then out == "/" else n.str + out == full)
  }

  /** A mount point above a path is the path or a directory on the way to it. */
  lemma AboveMeans(m: string, path: string)
    ensures IsAbove(m, path) <==> path == m || exists rest: string :: path == m + ("/" + rest)
  {
    if IsAbove(m, path) {
      if |path| == |m| {
        assert path[..|m|] == path;
      } else {
        assert path == m + ("/" + path[|m| + 1..]);
      }
    }
    if rest: string :| path == m + ("/" + rest) { assert path[..|m|] == m && path[|m|] == '/'; }
  }

  /** What a chdir asks for: the newest root mount goes back to its own root, a longest match
      goes to the path within it, the current volume to a relative path. */
  lemma ChdirAsks(t: MountTable, path: string)
    requires t.Valid()
    ensures path == "/" ==>
              match t.ChdirCall(path)
              case Some(NoCall) => forall n <- t.nodes :: !IsRoot(n.str)
              case Some(Chdir(n, arg)) =>
                arg == "/" && exists k :: 0 <= k < |t.nodes| && t.nodes[k] == n && IsFirstRoot(t.nodes, k)
              case None => false
    ensures IsAbsolute(path) && path != "/" ==>
              match t.ChdirCall(path)
              case Some(NoCall) => false
              case Some(Chdir(n, arg)) => IsLongestMatch(t.nodes, n, path, path, arg)
              case None => forall n <- t.nodes :: !Serves(n.str, path)
    ensures !IsAbsolute(path) && t.cur.Mounted? ==> t.ChdirCall(path) == Some(Chdir(t.cur.node, path))
    ensures !IsAbsolute(path) && t.cur == NoVolume ==> t.ChdirCall(path) == None
  {
    hide Ordered, Serves, WithinVolume;
    if path == "/" {
      var k := FirstRoot(Names(t.nodes));
      assert forall i :: 0 <= i < |t.nodes| ==> Names(t.nodes)[i] == t.nodes[i].str;
      if k < |t.nodes| { assert IsFirstRoot(t.nodes, k); }
    } else if IsAbsolute(path) {
      RoutesByLongestPrefix(t, path);
    }
  }

  ghost predicate IsFirstRoot(nodes: seq<Node>, k: int) {
    0 <= k < |nodes| && IsRoot(nodes[k].str) && forall i :: 0 <= i < k ==> !IsRoot(nodes[i].str)
  }

  lemma WithinIs(m: string, path: string, full: string)
    requires Serves(m, full)
    ensures var out := WithinVolume(m, path, full);
            if IsRoot(m) then out == path else if m == full then out == "/" else m + out == full && IsAbsolute(out)
  {
    if |full| == |m| { assert full[..|m|] == full; }
  }

  /** Only position k - 1 holds the node before k. */
  lemma LastIs(nodes: seq<Node>, k: nat)
    requires Distinct(nodes) && k <= |nodes|
    ensures k > 0 ==> forall i :: 0 <= i < |nodes| && i != k - 1 ==> nodes[i] != nodes[k - 1]
  {
  }

  lemma InsertDistinct(nodes: seq<Node>, k: nat, n: Node)
    requires Distinct(nodes) && k <= |nodes| && n !in nodes
    ensures Distinct(Insert(nodes, k, n)) && NodeIn(Insert(nodes, k, n), 0) == if k == 0 then n else NodeIn(nodes, 0)
  {
  }

  lemma RemoveDistinct(nodes: seq<Node>, k: nat)
    requires Distinct(nodes) && k < |nodes|
    ensures Distinct(Remove(nodes, k)) &&
            NodeIn(Remove(nodes, k), 0) == if k == 0 then NodeIn(nodes, 1) else NodeIn(nodes, 0)
  {
  }

  lemma InsertChains(nodes: seq<Node>, k: nat, n: Node)
    requires k <= |nodes| && n.next == NodeIn(nodes, k) && (k > 0 ==> nodes[k - 1].next == n)
    requires forall i :: 0 <= i < |nodes| && i != k - 1 ==> nodes[i].next == NodeIn(nodes, i + 1)
    ensures Chained(Insert(nodes, k, n))
  {
    var after := Insert(nodes, k, n);
    forall i | 0 <= i < |after| ensures after[i].next == NodeIn(after, i + 1) {
      assert after[i] == if i < k then nodes[i] else if i == k then n else nodes[i - 1];
    }
  }

  lemma RemoveChains(nodes: seq<Node>, k: nat)
    requires k < |nodes| && (k > 0 ==> nodes[k - 1].next == NodeIn(nodes, k + 1))
    requires forall i :: 0 <= i < |nodes| && i != k - 1 ==> nodes[i].next == NodeIn(nodes, i + 1)
    ensures Chained(Remove(nodes, k))
  {
    var after := Remove(nodes, k);
    forall i | 0 <= i < |after| ensures after[i].next == NodeIn(after, i + 1) {
      assert after[i] == nodes[if i < k then i else i + 1];
    }
  }

  ghost predicate MountsAt(before: seq<Node>, after: seq<Node>, k: nat, str: string, obj: int) {
    && k <= |before| && k < |after| && after == Insert(before, k, after[k])
    && after[k] !in before && after[k].str == str && after[k].obj == obj
  }

  lemma InsertThenRemove<T>(s: seq<T>, k: nat, x: T)
    requires k <= |s|
    ensures Remove(Insert(s, k, x), k) == s
  {
  }

  lemma TargetIs(n: Node, t: Target)
    requires IsTarget(n, t)
    ensures match t case ByPath(path) => n.str == path case ByObject(obj) => n.obj == obj
  {
  }

  lemma NameIsTarget(n: Node)
    ensures IsTarget(n, ByPath(n.str))
  {
  }

  lemma FirstTarget(before: seq<Node>, k: nat, after: seq<Node>, m: string, j: nat)
    requires k <= |before| && k < |after| && after == Insert(before, k, after[k]) && after[k].str == m
    requires m !in Names(before)[..k]
    requires j < |after| && IsTarget(after[j], ByPath(m))
    requires forall i :: 0 <= i < j ==> !IsTarget(after[i], ByPath(m))
    ensures j == k
  {
    forall i | 0 <= i < k ensures after[i].str != m {
      assert after[i] == before[i] && Names(before)[..k][i] == before[i].str;
    }
    assert IsTarget(after[k], ByPath(m));
  }

  /** Nothing before a fresh mount has its name. */
  lemma NewestIsFound(mounts: seq<string>, m: string)
    requires Ordered(mounts) && IsAbsolute(m) && !Refused(mounts, m)
    ensures m !in mounts[..FirstRoot(mounts)]
  {
    RefusedExactlyWhenCovered(mounts, m);
    if i: nat :| i < FirstRoot(mounts) && mounts[i] == m {
      assert !IsRoot(mounts[i]) && IsAbove(mounts[i], m) by { assert m[..|m|] == m; }
      assert false;
    }
  }

  lemma StaysIn(before: seq<Node>, k: nat)
    requires k < |before|
    ensures forall i :: 0 <= i < |before| && i != k ==> before[i] in Remove(before, k)
  {
    forall i | 0 <= i < |before| && i != k ensures before[i] in Remove(before, k) {
      assert Remove(before, k)[if i < k then i else i - 1] == before[i];
    }
  }

  lemma RefusedIs(t: MountTable, m: string)
    requires IsAbsolute(m)
    ensures var v := t.Lookup(m).0;
            v.Mounted? && (|m| == 1 || |v.node.str| != 1) <==> Refused(Names(t.nodes), m)
  {
    hide WithinVolume;
    if |m| == 1 { assert m == "/"; }
  }

  lemma FirstIs(mounts: seq<string>, path: string, i: nat)
    requires i < |mounts| && Serves(mounts[i], path)
    requires forall j :: 0 <= j < i ==> !Serves(mounts[j], path)
    ensures FirstServing(mounts, path) == Some(i)
  {
  }

  lemma FirstRootIs(mounts: seq<string>, k: nat)
    requires k <= |mounts| && (k < |mounts| ==> IsRoot(mounts[k]))
    requires forall i :: 0 <= i < k ==> !IsRoot(mounts[i])
    ensures FirstRoot(mounts) == k
  {
  }

  /** Comparing past the first slash is comparing the whole. */
  lemma TailMatches(m: string, p: string)
    requires IsAbsolute(m)
    ensures IsAbove(m, "/" + p) <==>
              |m| - 1 <= |p| && p[..|m| - 1] == m[1..] && (|p| == |m| - 1 || p[|m| - 1] == '/')
  {
    var full := "/" + p;
    if |m| <= |full| {
      assert full[..|m|] == "/" + p[..|m| - 1];
      assert m == "/" + m[1..];
      assert full[..|m|][1..] == p[..|m| - 1];
    }
  }

  lemma LookupIsMounted(t: MountTable, path: string)
    requires t.Valid()
    ensures t.Lookup(path).0.Mounted? ==> t.Lookup(path).0.node in t.nodes
  {
  }
}
