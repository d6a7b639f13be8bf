/** The node tree of `kernel/fs.c` and path resolution in it. */
module FileSystem {
  import opened Words

  /** A node and the indices of its children, in the order they were added. */
  datatype Node = Node(name: string, children: seq<nat>)
  type Tree = seq<Node>

  predicate AllBelow(kids: seq<nat>, n: nat) {
    forall i :: 0 <= i < |kids| ==> kids[i] < n
  }

  predicate Closed(t: Tree) {
    |t| > 0 && forall i :: 0 <= i < |t| ==> AllBelow(t[i].children, |t|)
  }

  /** Text in the kernel ends at its first NUL. */
  predicate NoNul(s: string) {
    forall i :: 0 <= i < |s| ==> s[i] != '\0'
  }

  predicate IsSeparator(c: char) {
    c == '/' || c == '\\' || c == '.'
  }

  // ---------- names ----------

  function CharSum(s: string): int {
    if s == "" then 0 else CharSum(s[..|s| - 1]) + s[|s| - 1] as int
  }

  /** What the code takes for equal names: equal length and equal character sum. */
  predicate SameName(a: string, b: string) {
    |a| == |b| && CharSum(a) == CharSum(b)
  }

  /** How far two texts can be compared within `n` characters. */
  function Extent(a: string, b: string, n: nat): (m: nat)
    ensures m <= n && m <= |a| && m <= |b| && (m == n || m == |a| || m == |b|)
  {
    var k := if |a| < |b| then |a| else |b|;
    if k < n then k else n
  }

  /** What `KeCompareStringEx` makes of the first `n` characters of two texts: the
      difference of their character sums, or -1 where one text ends too early. */
  function Compared(a: string, b: string, n: nat): int {
    var m := Extent(a, b, n);
    if m < n && At(a, m) != At(b, m) then -1 else CharSum(a[..m]) - CharSum(b[..m])
  }

  method KeCompareStringEx(s1: string, s2: string, n: nat) returns (diff: int)
    requires NoNul(s1) && NoNul(s2)
    ensures diff == Compared(s1, s2, n)
  {
    diff := 0;
    var left: nat, i: nat := n, 0;
    while left > 0 && At(s1, i) != '\0' && At(s2, i) != '\0'
      invariant left + i == n && i <= |s1| && i <= |s2|
      invariant diff == CharSum(s1[..i]) - CharSum(s2[..i])
      decreases left
    {
      assert s1[..i + 1][..i] == s1[..i] && s2[..i + 1][..i] == s2[..i];
      diff := diff + (s1[i] as int - s2[i] as int);
      i := i + 1;
      left := left - 1;
    }
    assert i == Extent(s1, s2, n);
    if At(s1, i) != At(s2, i) && left > 0 {
      diff := -1;
    }
  }

  /** On texts that are long enough it is zero just when the sums agree. */
  lemma ComparedZeroIff(a: string, b: string)
    requires |a| >= |b|
    ensures Compared(a, b, |b|) == 0 <==> SameName(a[..|b|], b)
  {
    assert b[..|b|] == b;
  }

  /** `KeBreakCharPtrString`: the first separator from `i` on, or the end. */
  function SegmentEnd(p: string, i: nat): (e: nat)
    requires i <= |p|
    ensures i <= e <= |p| && (e < |p| ==> IsSeparator(p[e]))
    ensures forall k :: i <= k < e ==> !IsSeparator(p[k])
    decreases |p| - i
  {
    if i == |p| || IsSeparator(p[i]) then i else SegmentEnd(p, i + 1)
  }

  method KeBreakCharPtrString(s: string, from: nat, accept: string) returns (at: nat)
    requires from <= |s| && (forall c :: c in accept <==> IsSeparator(c))
    ensures at == SegmentEnd(s, from)
  {
    at := from;
    while at < |s|
      invariant from <= at <= |s| && SegmentEnd(s, from) == SegmentEnd(s, at)
    {
      for i := 0 to |accept|
        invariant s[at] !in accept[..i]
      {
        if s[at] == accept[i] {
          assert s[at] in accept;
          return;
        }
      }
      assert accept[..|accept|] == accept;
      at := at + 1;
    }
  }

  // ---------- resolution, segment by segment ----------

  /** The parts of a path: what stands between separators, except that nothing
      follows a last separator. */
  function Segments(p: string): seq<string>
    decreases |p|
  {
    if p == "" then []
    else
      var e := SegmentEnd(p, 0);
      [p[..e]] + Segments(if e < |p| then p[e + 1..] else "")
  }

  /** The first child whose name matches. */
  function FirstMatch(t: Tree, kids: seq<nat>, name: string): (r: Option<nat>)
    requires AllBelow(kids, |t|)
    ensures r.Some? ==> r.value < |t| && SameName(t[r.value].name, name)
  {
    if kids == [] then None
    else if SameName(t[kids[0]].name, name) then Some(kids[0])
    else FirstMatch(t, kids[1..], name)
  }

  /** The recursive walk of the tree that path resolution stands for. */
  function Descend(t: Tree, at: nat, segments: seq<string>): (r: Option<nat>)
    requires Closed(t) && at < |t|
    ensures r.Some? ==> r.value < |t|
    decreases |segments|
  {
    if segments == [] then Some(at)
    else
      match FirstMatch(t, t[at].children, segments[0])
      case None => None
      case Some(c) => Descend(t, c, segments[1..])
  }

  predicate IsLetter(c: char) {
    ('A' <= c <= 'Z') || ('a' <= c <= 'z')
  }

  function Upper(c: char): char
    requires IsLetter(c)
  {
    if 'a' <= c <= 'z' then 'A' + (c - 'a') else c
  }

  /** `KeGetFsDrive`: the letters count from 0 anew at J and at S. */
  function Drive(c: char): nat
    requires IsLetter(c)
  {
    var u := Upper(c);
    if u <= 'I' then (u - 'A') as nat else if u <= 'R' then (u - 'J') as nat else (u - 'S') as nat
  }

  /** Fast indexing: each leading letter picks a child by number. */
  function FastIndex(t: Tree, at: nat, p: string, i: nat): (r: Option<(nat, nat)>)
    requires Closed(t) && at < |t| && i <= |p|
    ensures r.Some? ==> r.value.0 < |t| && i <= r.value.1 <= |p|
    decreases |p| - i
  {
    if i < |p| && IsLetter(p[i]) then
      if Drive(p[i]) >= |t[at].children| then None
      else
        FastIndex(t, t[at].children[Drive(p[i])], p, i + 1)
    else Some((at, i))
  }

  /** `KeResolveFsPath`, said recursively. */
  function Resolve(t: Tree, p: string): (r: Option<nat>)
    requires Closed(t)
    ensures r.Some? ==> r.value < |t|
  {
    if IsSeparator(At(p, 0)) then Descend(t, 0, Segments(p[1..]))
    else match FastIndex(t, 0, p, 0)
      case None => None
      case Some((at, i)) =>
        if At(p, i) == ':' && IsSeparator(At(p, i + 1)) then Descend(t, at, Segments(p[i + 2..]))
        else Some(at)
  }

  // ---------- the code ----------

  class Vfs {
    var nodes: Tree

    predicate Valid()
      reads this
    {
      Closed(nodes) && forall i :: 0 <= i < |nodes| ==> NoNul(nodes[i].name)
    }

    constructor ()
      ensures Valid() && nodes == [Node("", [])]
    {
      nodes := [Node("", [])];
    }

    /** One pass over the children of `root`: the first that matches the segment of
        `len` characters at `from`. */
    method FindChild(root: nat, path: string, from: nat, len: nat) returns (r: Option<nat>)
      requires Valid() && root < |nodes| && from + len <= |path| && NoNul(path)
      ensures r == FirstMatch(nodes, nodes[root].children, path[from..from + len])
    {
      var kids := nodes[root].children;
      ghost var seg := path[from..from + len];
      for i := 0 to |kids|
        invariant AllBelow(kids[i..], |nodes|) && FirstMatch(nodes, kids, seg) == FirstMatch(nodes, kids[i..], seg)
      {
        assert kids[i..][0] == kids[i] && kids[i..][1..] == kids[i + 1..];
        var child := kids[i];
        if |nodes[child].name| != len {
          continue;
        }
        var diff := KeCompareStringEx(path[from..], nodes[child].name, len);
        ComparedZeroIff(path[from..], nodes[child].name);
        assert path[from..][..len] == seg;
        if diff == 0 {
          return Some(child);
        }
      }
      r := None;
    }

    /** The loop over drive letters. */
    method FastIndexIn(path: string) returns (r: Option<(nat, nat)>)
      requires Valid() && NoNul(path)
      ensures r == FastIndex(nodes, 0, path, 0)
    {
      var root: nat, at: nat := 0, 0;
      while at < |path| && IsLetter(path[at])
        invariant at <= |path| && root < |nodes|
        invariant FastIndex(nodes, 0, path, 0) == FastIndex(nodes, root, path, at)
      {
        var letter := Drive(path[at]);
        if letter >= |nodes[root].children| {
          return None;
        }
        root := nodes[root].children[letter];
        at := at + 1;
      }
      r := Some((root, at));
    }

    /** The loop over names, from `find_file` on. */
    method DescendIn(root0: nat, path: string, from: nat) returns (r: Option<nat>)
      requires Valid() && NoNul(path) && root0 < |nodes| && from <= |path|
      ensures r == Descend(nodes, root0, Segments(path[from..]))
    {
      hide FirstMatch, Segments, SegmentEnd, Closed;
      var root: nat, at: nat := root0, from;
      while At(path, at) != '\0'
        invariant at <= |path| && root < |nodes|
        invariant Descend(nodes, root0, Segments(path[from..])) == Descend(nodes, root, Segments(path[at..]))
        decreases |path| - at
      {
        var end := KeBreakCharPtrString(path, at, "/\\.");
        SegmentStep(path, at);
        var child := FindChild(root, path, at, end - at);
        if child.None? {
          return None;
        }
        root := child.value;
        at := end;
        if IsSeparator(At(path, at)) {
          at := at + 1;
        }
        assert path[at..] == if end < |path| then path[end + 1..] else "";
      }
      assert path[at..] == "" && Segments("") == [] by {
        NoSegments();
      }
      r := Some(root);
    }

    /** `KeResolveFsPath`: the index of the node, None for a null pointer. */
    method KeResolveFsPath(path: string) returns (r: Option<nat>)
      requires Valid() && NoNul(path)
      ensures r == Resolve(nodes, path)
    {
      hide Descend, Segments;
      var root, at := 0, 0;
      if IsSeparator(At(path, at)) {
        at := 1;
      } else {
        var fast := FastIndexIn(path);
        if fast.None? {
          return None;
        }
        root, at := fast.value.0, fast.value.1;
        if At(path, at) != ':' {
          return Some(root);
        }
        at := at + 1;
        if !IsSeparator(At(path, at)) {
          return Some(root);
        }
        at := at + 1;
      }
      r := DescendIn(root, path, at);
    }

    /** `KeAddFsNodeChild`. */
    method KeAddFsNodeChild(parent: nat, child: nat)
      requires Valid() && parent < |nodes| && child < |nodes|
      modifies this
      ensures Valid() && nodes == WithChild(old(nodes), parent, child)
    {
      nodes := nodes[parent := Node(nodes[parent].name, nodes[parent].children + [child])];
    }

    /** `KeCreateFsNode`: where the path leads nowhere the node goes to the root. */
    method KeCreateFsNode(path: string, name: string) returns (node: nat)
      requires Valid() && NoNul(path) && NoNul(name)
      modifies this
      ensures Valid() && node == old(|nodes|) && nodes == Created(old(nodes), path, name)
    {
      ghost var before := nodes;
      node := |nodes|;
      nodes := nodes + [Node(name, [])];
      var root := KeResolveFsPath(path);
      var parent := if root.None? then 0 else root.value;
      LooseNode(before, name, path);
      KeAddFsNodeChild(parent, node);
    }
  }

  lemma NoSegments()
    ensures Segments("") == []
  {
  }

  lemma SegmentStep(p: string, at: nat)
    requires at < |p|
    ensures var e := SegmentEnd(p, at);
            Segments(p[at..]) == [p[at..e]] + Segments(if e < |p| then p[e + 1..] else "")
  {
    hide SegmentEnd, Segments;
    EndShift(p, at, 0);
    var r, e := p[at..], SegmentEnd(p, at);
    SegmentsUnfold(r);
    SegmentEndBounds(p, at);
    SliceAgain(p, at, e);
    assert e < |p| <==> e - at < |r|;
  }

  lemma SegmentEndBounds(p: string, i: nat)
    requires i <= |p|
    ensures i <= SegmentEnd(p, i) <= |p|
  {
  }

  lemma SliceAgain(p: string, at: nat, e: nat)
    requires at <= e <= |p|
    ensures p[at..][..e - at] == p[at..e]
    ensures e < |p| ==> p[at..][e - at + 1..] == p[e + 1..]
  {
  }

  lemma SegmentsUnfold(p: string)
    requires p != ""
    ensures var e := SegmentEnd(p, 0);
            Segments(p) == [p[..e]] + Segments(if e < |p| then p[e + 1..] else "")
  {
  }

  lemma {:induction false} EndShift(p: string, at: nat, i: nat)
    requires at + i <= |p|
    ensures SegmentEnd(p[at..], i) == SegmentEnd(p, at + i) - at
    decreases |p| - at - i
  {
    if at + i < |p| && !IsSeparator(p[at + i]) {
      EndShift(p, at, i + 1);
    }
  }

  function WithChild(t: Tree, parent: nat, child: nat): Tree
    requires parent < |t|
  {
    t[parent := Node(t[parent].name, t[parent].children + [child])]
  }

  /** The tree after `KeCreateFsNode`. */
  function Created(t: Tree, path: string, name: string): Tree
    requires Closed(t)
  {
    WithChild(t + [Node(name, [])], Parent(t, path), |t|)
  }

  function Parent(t: Tree, path: string): (p: nat)
    requires Closed(t)
    ensures p < |t|
  {
    match Resolve(t, path) case None => 0 case Some(p) => p
  }

  // ---------- growing trees ----------

  /** `u` has the nodes of `t`, perhaps with more children, and perhaps more nodes. */
  ghost predicate Extends(t: Tree, u: Tree) {
    |t| <= |u| && forall i :: 0 <= i < |t| ==> t[i].name == u[i].name && t[i].children <= u[i].children
  }

  lemma {:induction false} MatchKept(t: Tree, u: Tree, kids: seq<nat>, more: seq<nat>, name: string)
    requires Extends(t, u) && AllBelow(kids, |t|) && AllBelow(kids + more, |u|)
    requires FirstMatch(t, kids, name).Some?
    ensures FirstMatch(u, kids + more, name) == FirstMatch(t, kids, name)
  {
    assert (kids + more)[0] == kids[0] && (kids + more)[1..] == kids[1..] + more;
    if !SameName(t[kids[0]].name, name) {
      MatchKept(t, u, kids[1..], more, name);
    }
  }

  lemma {:induction false} DescendKept(t: Tree, u: Tree, at: nat, segments: seq<string>)
    requires Closed(t) && Closed(u) && Extends(t, u) && at < |t|
    requires Descend(t, at, segments).Some?
    ensures Descend(u, at, segments) == Descend(t, at, segments)
    decreases |segments|
  {
    if segments != [] {
      var kids := t[at].children;
      assert u[at].children == kids + u[at].children[|kids|..];
      MatchKept(t, u, kids, u[at].children[|kids|..], segments[0]);
      DescendKept(t, u, FirstMatch(t, kids, segments[0]).value, segments[1..]);
    }
  }

  lemma {:induction false} FastKept(t: Tree, u: Tree, at: nat, p: string, i: nat)
    requires Closed(t) && Closed(u) && Extends(t, u) && at < |t| && i <= |p|
    requires FastIndex(t, at, p, i).Some?
    ensures FastIndex(u, at, p, i) == FastIndex(t, at, p, i) && FastIndex(t, at, p, i).value.0 < |t|
    decreases |p| - i
  {
    if i < |p| && IsLetter(p[i]) {
      FastKept(t, u, t[at].children[Drive(p[i])], p, i + 1);
    }
  }

  /** A path that resolves goes on resolving to the same node, however many nodes
      and children are added. */
  lemma ResolveKept(t: Tree, u: Tree, p: string)
    requires Closed(t) && Closed(u) && Extends(t, u) && Resolve(t, p).Some?
    ensures Resolve(u, p) == Resolve(t, p)
  {
    if IsSeparator(At(p, 0)) {
      DescendKept(t, u, 0, Segments(p[1..]));
    } else {
      FastKept(t, u, 0, p, 0);
      var (at, i) := FastIndex(t, 0, p, 0).value;
      if At(p, i) == ':' && IsSeparator(At(p, i + 1)) {
        DescendKept(t, u, at, Segments(p[i + 2..]));
      }
    }
  }

  // ---------- a node nobody points to ----------

  lemma {:induction false} MatchLoose(t: Tree, n: Node, kids: seq<nat>, name: string)
    requires AllBelow(kids, |t|)
    ensures FirstMatch(t + [n], kids, name) == FirstMatch(t, kids, name)
  {
    if kids != [] {
      MatchLoose(t, n, kids[1..], name);
    }
  }

  lemma {:induction false} DescendLoose(t: Tree, n: Node, at: nat, segments: seq<string>)
    requires Closed(t) && Closed(t + [n]) && at < |t|
    ensures Descend(t + [n], at, segments) == Descend(t, at, segments)
    decreases |segments|
  {
    if segments != [] {
      MatchLoose(t, n, t[at].children, segments[0]);
      match FirstMatch(t, t[at].children, segments[0])
      case None =>
      case Some(c) => DescendLoose(t, n, c, segments[1..]);
    }
  }

  lemma {:induction false} FastLoose(t: Tree, n: Node, at: nat, p: string, i: nat)
    requires Closed(t) && Closed(t + [n]) && at < |t| && i <= |p|
    ensures FastIndex(t + [n], at, p, i) == FastIndex(t, at, p, i)
    ensures FastIndex(t, at, p, i).Some? ==> FastIndex(t, at, p, i).value.0 < |t|
    decreases |p| - i
  {
    if i < |p| && IsLetter(p[i]) && Drive(p[i]) < |t[at].children| {
      FastLoose(t, n, t[at].children[Drive(p[i])], p, i + 1);
    }
  }

  lemma LooseClosed(t: Tree, name: string)
    requires Closed(t)
    ensures Closed(t + [Node(name, [])])
  {
  }

  /** A node with no parent changes no path. */
  lemma LooseNode(t: Tree, name: string, p: string)
    requires Closed(t)
    ensures Closed(t + [Node(name, [])]) && Resolve(t + [Node(name, [])], p) == Resolve(t, p)
  {
    LooseClosed(t, name);
    hide Closed, Resolve;
    if IsSeparator(At(p, 0)) {
      LooseSeparator(t, Node(name, []), p);
    } else {
      LooseLetters(t, Node(name, []), p);
    }
  }

  lemma LooseSeparator(t: Tree, n: Node, p: string)
    requires Closed(t) && Closed(t + [n]) && IsSeparator(At(p, 0))
    ensures Resolve(t + [n], p) == Resolve(t, p)
  {
    assert |t| > 0;
    hide Closed, Descend, FastIndex, Segments;
    DescendLoose(t, n, 0, Segments(p[1..]));
  }

  lemma LooseLetters(t: Tree, n: Node, p: string)
    requires Closed(t) && Closed(t + [n]) && !IsSeparator(At(p, 0))
    ensures Resolve(t + [n], p) == Resolve(t, p)
  {
    assert |t| > 0;
    hide Closed, Descend, FastIndex, Segments, IsSeparator, At;
    FastLoose(t, n, 0, p, 0);
    var f := FastIndex(t, 0, p, 0);
    if f.Some? && At(p, f.value.1) == ':' && IsSeparator(At(p, f.value.1 + 1)) {
      AtInside(p, f.value.1 + 1);
      DescendLoose(t, n, f.value.0, Segments(p[f.value.1 + 2..]));
    }
  }

  lemma AtInside(p: string, i: nat)
    requires IsSeparator(At(p, i))
    ensures i < |p|
  {
  }

  // ---------- creating a node ----------

  lemma CreatedFacts(t: Tree, path: string, name: string)
    requires Closed(t)
    ensures Closed(Created(t, path, name)) && Extends(t, Created(t, path, name))
    ensures |Created(t, path, name)| == |t| + 1
  {
    var u, c := t + [Node(name, [])], Created(t, path, name);
    LooseClosed(t, name);
  }

  /** Creating a node changes nothing for paths that already resolve. */
  lemma CreateKeepsPaths(t: Tree, path: string, name: string, p: string)
    requires Closed(t) && Resolve(t, p).Some?
    ensures Closed(Created(t, path, name)) && Resolve(Created(t, path, name), p) == Resolve(t, p)
  {
    CreatedFacts(t, path, name);
    ResolveKept(t, Created(t, path, name), p);
  }

  /** No child in the list has a matching name. */
  predicate NoneMatches(t: Tree, kids: seq<nat>, name: string)
    requires AllBelow(kids, |t|)
  {
    forall i :: 0 <= i < |kids| ==> !SameName(t[kids[i]].name, name)
  }

  lemma {:induction false} NoneMatchesIff(t: Tree, kids: seq<nat>, name: string)
    requires AllBelow(kids, |t|)
    ensures NoneMatches(t, kids, name) <==> FirstMatch(t, kids, name).None?
    ensures forall c <- kids :: SameName(t[c].name, name) ==> FirstMatch(t, kids, name).Some?
  {
    hide SameName;
    if kids != [] {
      assert AllBelow(kids[1..], |t|);
      NoneMatchesIff(t, kids[1..], name);
      assert forall i :: 1 <= i < |kids| ==> kids[i] == kids[1..][i - 1];
    }
  }

  /** A new last child is found only if it matches and no earlier one does; nodes
      whose names are the same match the same. */
  lemma {:induction false} MatchAppend(t: Tree, u: Tree, kids: seq<nat>, c: nat, name: string)
    requires |t| <= |u| && c < |u| && AllBelow(kids, |t|) && forall i :: 0 <= i < |t| ==> u[i].name == t[i].name
    ensures AllBelow(kids + [c], |u|)
    ensures FirstMatch(u, kids + [c], name)
            == if FirstMatch(t, kids, name).Some? then FirstMatch(t, kids, name)
               else if SameName(u[c].name, name) then Some(c) else None
  {
    hide SameName;
    if kids == [] {
      assert (kids + [c])[1..] == [];
    } else {
      assert (kids + [c])[1..] == kids[1..] + [c];
      MatchAppend(t, u, kids[1..], c, name);
    }
  }

  lemma {:induction false} DescendSplit(t: Tree, at: nat, a: seq<string>, b: seq<string>)
    requires Closed(t) && at < |t| && Descend(t, at, a).Some?
    ensures Descend(t, at, a + b) == Descend(t, Descend(t, at, a).value, b)
    decreases |a|
  {
    if a == [] {
      assert a + b == b;
    } else {
      assert (a + b)[1..] == a[1..] + b;
      DescendSplit(t, FirstMatch(t, t[at].children, a[0]).value, a[1..], b);
    }
  }

  predicate Plain(name: string) {
    name != "" && forall i :: 0 <= i < |name| ==> name[i] !in "/\\."
  }

  /** `p` with `name` below it. */
  function Below(p: string, name: string): string {
    if p == "" || IsSeparator(p[|p| - 1]) then p + name else p + "/" + name
  }

  lemma {:induction false} PlainEnd(p: string, i: nat)
    requires i <= |p| && forall k :: i <= k < |p| ==> !IsSeparator(p[k])
    ensures SegmentEnd(p, i) == |p|
    decreases |p| - i
  {
    if i < |p| {
      PlainEnd(p, i + 1);
    }
  }

  lemma {:induction false} EndPrefix(p: string, q: string, i: nat)
    requires i <= |p| && (SegmentEnd(p, i) < |p| || q == "" || IsSeparator(q[0]))
    ensures SegmentEnd(p + q, i) == SegmentEnd(p, i)
    decreases |p| - i
  {
    if i < |p| && !IsSeparator(p[i]) {
      EndPrefix(p, q, i + 1);
    }
  }

  lemma SegmentsPlain(name: string)
    requires Plain(name)
    ensures Segments(name) == [name]
  {
    PlainEnd(name, 0);
    assert name[..|name|] == name;
  }

  /** A path without separators, and a name below it. */
  lemma SegmentsOneBelow(p: string, name: string)
    requires Plain(p) && Plain(name)
    ensures Segments(p + "/" + name) == [p, name]
  {
    hide SegmentEnd, Plain;
    var q, tail := p + "/" + name, "/" + name;
    assert q == p + tail && q != "";
    SegmentsUnfold(q);
    hide Segments;
    PlainNoSeparator(p);
    PlainEnd(p, 0);
    EndPrefix(p, tail, 0);
    assert q[..|p|] == p && q[|p| + 1..] == name;
    SegmentsPlain(name);
  }

  lemma PlainNoSeparator(p: string)
    requires Plain(p)
    ensures forall k :: 0 <= k < |p| ==> !IsSeparator(p[k])
  {
  }

  lemma BelowTail(p: string, e: nat, name: string)
    requires e < |p| && IsSeparator(p[e])
    ensures |Below(p, name)| > e && Below(p, name)[..e] == p[..e] && Below(p, name)[e + 1..] == Below(p[e + 1..], name)
  {
    var r := p[e + 1..];
    assert r != "" ==> r[|r| - 1] == p[|p| - 1];
    assert r == "" ==> IsSeparator(p[|p| - 1]);
    var tail := if IsSeparator(p[|p| - 1]) then name else "/" + name;
    assert Below(p, name) == p + tail && Below(r, name) == r + tail;
    hide Below;
    assert (p + tail)[..e] == p[..e] && (p + tail)[e + 1..] == r + tail;
  }

  lemma {:induction false} SegmentsBelow(p: string, name: string)
    requires Plain(name)
    ensures Segments(Below(p, name)) == Segments(p) + [name]
    decreases |p|
  {
    hide Segments, Below;
    var q, e := Below(p, name), SegmentEnd(p, 0);
    if p == "" {
      BelowNothing(name);
    } else if e == |p| {
      BelowPlain(p, name);
    } else {
      BelowMore(p, name);
      hide SegmentEnd;
      SegmentsBelow(p[e + 1..], name);
      assert [p[..e]] + (Segments(p[e + 1..]) + [name]) == ([p[..e]] + Segments(p[e + 1..])) + [name];
    }
  }

  lemma BelowNothing(name: string)
    requires Plain(name)
    ensures Segments(Below("", name)) == Segments("") + [name]
  {
    SegmentsPlain(name);
    NoSegments();
    assert "" + name == name;
  }

  lemma BelowPlain(p: string, name: string)
    requires Plain(name) && p != "" && SegmentEnd(p, 0) == |p|
    ensures Segments(Below(p, name)) == Segments(p) + [name]
  {
    hide Segments;
    forall k | 0 <= k < |p|
      ensures p[k] !in "/\\."
    {
      assert !IsSeparator(p[k]);
    }
    SegmentsPlain(p);
    SegmentsOneBelow(p, name);
    assert !IsSeparator(p[|p| - 1]);
  }

  lemma BelowMore(p: string, name: string)
    requires SegmentEnd(p, 0) < |p|
    ensures var e := SegmentEnd(p, 0);
            && Segments(p) == [p[..e]] + Segments(p[e + 1..])
            && Segments(Below(p, name)) == [p[..e]] + Segments(Below(p[e + 1..], name))
  {
    hide Segments, SegmentEnd;
    var q, e := Below(p, name), SegmentEnd(p, 0);
    var tail := q[|p|..];
    assert q == p + tail;
    hide Below;
    EndPrefix(p, tail, 0);
    BelowTail(p, e, name);
    SegmentsUnfold(p);
    SegmentsUnfold(q);
  }

  /** A path at which to look for `q` below the node that `path` stands for, or below
      the root when it stands for none. */
  function Lookup(t: Tree, path: string, q: string): string
    requires Closed(t)
  {
    if Resolve(t, path).None? then "/" + q
    else if IsSeparator(At(path, 0)) then [path[0]] + Below(path[1..], q)
    else
      var i := FastIndex(t, 0, path, 0).value.1;
      if At(path, i) == ':' && IsSeparator(At(path, i + 1)) then path[..i + 2] + Below(path[i + 2..], q)
      else path[..i] + ":/" + q
  }

  /** Fast indexing looks no further than to the first character that is no letter. */
  lemma {:induction false} FastPrefix(t: Tree, at: nat, p: string, r: string, k: nat)
    requires Closed(t) && at < |t| && k <= |p| && FastIndex(t, at, p, k).Some?
    requires var i := FastIndex(t, at, p, k).value.1;
             k <= i < |r| && i <= |p| && r[..i] == p[..i] && !IsLetter(r[i])
    ensures FastIndex(t, at, r, k) == FastIndex(t, at, p, k)
    decreases |p| - k
  {
    var i := FastIndex(t, at, p, k).value.1;
    if k < i {
      assert r[k] == r[..i][k] == p[k];
    }
    if k < |p| && IsLetter(p[k]) {
      FastPrefix(t, t[at].children[Drive(p[k])], p, r, k + 1);
    }
  }

  /** Resolving such a path in a larger tree takes one step down from the parent. */
  lemma LookupDescends(t: Tree, u: Tree, path: string, q: string)
    requires Closed(t) && Closed(u) && Extends(t, u) && Plain(q)
    ensures Resolve(u, Lookup(t, path, q)) == Descend(u, Parent(t, path), [q])
  {
    hide Closed, Extends, Descend, Segments, Below, FastIndex, Plain;
    var full := Lookup(t, path, q);
    if Resolve(t, path).None? {
      assert full[1..] == q;
      SegmentsPlain(q);
      assert Plain(q);
    } else if IsSeparator(At(path, 0)) {
      assert full[1..] == Below(path[1..], q);
      GoesBelow(t, u, 0, path[1..], q);
    } else {
      FastKept(t, u, 0, path, 0);
      var (at, i) := FastIndex(t, 0, path, 0).value;
      if At(path, i) == ':' && IsSeparator(At(path, i + 1)) {
        assert full[..i + 2] == path[..i + 2] && full[i + 2..] == Below(path[i + 2..], q);
        AgreeBefore(path, full, i + 2, i);
        FastPrefix(u, 0, path, full, 0);
        GoesBelow(t, u, at, path[i + 2..], q);
      } else {
        assert full[..i] == path[..i] && full[i] == ':' && full[i + 1] == '/' && full[i + 2..] == q;
        FastPrefix(u, 0, path, full, 0);
        SegmentsPlain(q);
        AgreeStart(path, full, i);
      }
    }
  }

  lemma AgreeBefore(p: string, r: string, n: nat, i: nat)
    requires i < n <= |p| && n <= |r| && r[..n] == p[..n]
    ensures r[..i] == p[..i] && forall k :: 0 <= k < n ==> r[k] == p[k]
  {
    assert r[..n][..i] == r[..i] && p[..n][..i] == p[..i];
    assert forall k :: 0 <= k < n ==> r[k] == r[..n][k] && p[k] == p[..n][k];
  }

  lemma AgreeStart(p: string, r: string, i: nat)
    requires i <= |p| && i < |r| && r[..i] == p[..i] && r[i] == ':' && !IsSeparator(At(p, 0))
    ensures !IsSeparator(At(r, 0))
  {
    if i > 0 {
      assert r[0] == r[..i][0] == p[0];
    }
  }

  /** Below a path that leads somewhere, one step further. */
  lemma GoesBelow(t: Tree, u: Tree, at: nat, rest: string, q: string)
    requires Closed(t) && Closed(u) && Extends(t, u) && Plain(q) && at < |t|
    requires Descend(t, at, Segments(rest)).Some?
    ensures Descend(u, at, Segments(Below(rest, q))) == Descend(u, Descend(t, at, Segments(rest)).value, [q])
  {
    assert at < |u|;
    hide Segments, Below, SegmentEnd, FirstMatch, AllBelow, Closed, Extends;
    SegmentsBelow(rest, q);
    DescendKept(t, u, at, Segments(rest));
    DescendSplit(u, at, Segments(rest), [q]);
  }

  /** Create, then look: what is found below the path by the text `q`, for every path
      and every name.  It is the first older child that matches, else the new node if
      it matches, else nothing. */
  lemma CreateThenLook(t: Tree, path: string, name: string, q: string)
    requires Closed(t) && Plain(q)
    ensures Closed(Created(t, path, name))
    ensures Resolve(Created(t, path, name), Lookup(t, path, q))
            == match FirstMatch(t, t[Parent(t, path)].children, q)
               case Some(c) => Some(c)
               case None => if SameName(name, q) then Some(|t|) else None
  {
    var u, at := Created(t, path, name), Parent(t, path);
    CreatedFacts(t, path, name);
    LookupDescends(t, u, path, q);
    DescendOne(u, at, q);
    hide Lookup, Resolve, Descend, SameName, Plain;
    var kids := t[at].children;
    assert u[at].children == kids + [|t|];
    assert forall i :: 0 <= i < |t| ==> u[i].name == t[i].name;
    assert u[|t|].name == name;
    MatchAppend(t, u, kids, |t|, q);
  }

  /** The new node is found by its own name exactly when no older sibling matches it. */
  lemma CreateThenResolve(t: Tree, path: string, name: string)
    requires Closed(t) && Plain(name)
    ensures Closed(Created(t, path, name))
    ensures Resolve(Created(t, path, name), Lookup(t, path, name)) == Some(|t|)
            <==> NoneMatches(t, t[Parent(t, path)].children, name)
  {
    CreateThenLook(t, path, name, name);
    NoneMatchesIff(t, t[Parent(t, path)].children, name);
  }

  lemma DescendOne(t: Tree, at: nat, name: string)
    requires Closed(t) && at < |t|
    ensures Descend(t, at, [name]) == FirstMatch(t, t[at].children, name)
  {
    assert [name][1..] == [];
  }

  // ---------- anagrams ----------

  lemma {:induction false} CharSumConcat(a: string, b: string)
    ensures CharSum(a + b) == CharSum(a) + CharSum(b)
  {
    if b == "" {
      assert a + b == a;
    } else {
      assert (a + b)[..|a + b| - 1] == a + b[..|b| - 1];
      CharSumConcat(a, b[..|b| - 1]);
    }
  }

  /** The text without its character at `i`. */
  function Without(b: string, i: nat): string
    requires i < |b|
  {
    b[..i] + b[i + 1..]
  }

  lemma SumOne(c: char)
    ensures CharSum([c]) == c as int
  {
    assert [c][..0] == "";
  }

  lemma SumWithout(b: string, i: nat)
    requires i < |b|
    ensures CharSum(b) == CharSum(Without(b, i)) + b[i] as int
  {
    hide CharSum;
    var a, c, z := b[..i], [b[i]], b[i + 1..];
    SumOne(b[i]);
    CharSumConcat(a, c);
    CharSumConcat(a, z);
    CharSumConcat(a + c, z);
    assert a + c + z == b;
  }

  lemma LettersWithout(b: string, i: nat)
    requires i < |b|
    ensures multiset(Without(b, i)) == multiset(b) - multiset{b[i]}
  {
    assert b == b[..i] + [b[i]] + b[i + 1..];
  }

  lemma {:induction false} CharSumPermutes(a: string, b: string)
    requires multiset(a) == multiset(b)
    ensures |a| == |b| && CharSum(a) == CharSum(b)
    decreases |a|
  {
    assert |a| == |multiset(a)| && |b| == |multiset(b)|;
    if a != "" {
      hide CharSum, Without;
      var last := |a| - 1;
      assert a[last] in multiset(b);
      var i :| 0 <= i < |b| && b[i] == a[last];
      SumWithout(a, last);
      SumWithout(b, i);
      LettersWithout(a, last);
      LettersWithout(b, i);
      assert |Without(a, last)| < |a| by {
        Shorter(a, last);
      }
      CharSumPermutes(Without(a, last), Without(b, i));
    }
  }

  lemma Shorter(b: string, i: nat)
    requires i < |b|
    ensures |Without(b, i)| == |b| - 1
  {
  }

  /** Names with the same letters in any order match, so below a parent with such a
      child no other node can be found by that name: an older node is. */
  lemma AnagramsMatch(t: Tree, path: string, name: string, q: string, c: nat)
    requires Closed(t) && Plain(q)
    requires c in t[Parent(t, path)].children && multiset(t[c].name) == multiset(q)
    ensures SameName(t[c].name, q) && Closed(Created(t, path, name))
    ensures var r := Resolve(Created(t, path, name), Lookup(t, path, q));
            r.Some? && r.value < |t| && SameName(t[r.value].name, q)
  {
    CharSumPermutes(t[c].name, q);
    CreateThenLook(t, path, name, q);
    NoneMatchesIff(t, t[Parent(t, path)].children, q);
  }

  // ---------- separators are interchangeable ----------

  predicate SameButSeparators(p: string, q: string) {
    |p| == |q| && forall i :: 0 <= i < |p| ==> p[i] == q[i] || (p[i] in "/\\." && q[i] in "/\\.")
  }

  lemma {:induction false} SameEnd(p: string, q: string, i: nat)
    requires SameButSeparators(p, q) && i <= |p|
    ensures SegmentEnd(p, i) == SegmentEnd(q, i)
    decreases |p| - i
  {
    if i < |p| && !IsSeparator(p[i]) {
      SameEnd(p, q, i + 1);
    }
  }

  lemma SamePrefix(p: string, q: string, e: nat)
    requires SameButSeparators(p, q) && e == SegmentEnd(p, 0)
    ensures p[..e] == q[..e]
    ensures e < |p| ==> SameButSeparators(p[e + 1..], q[e + 1..])
  {
  }

  lemma {:induction false} SameSegments(p: string, q: string)
    requires SameButSeparators(p, q)
    ensures Segments(p) == Segments(q)
    decreases |p|
  {
    if p != "" {
      var e := SegmentEnd(p, 0);
      SameEnd(p, q, 0);
      SamePrefix(p, q, e);
      SegmentsUnfold(p);
      SegmentsUnfold(q);
      if e < |p| {
        SameSegments(p[e + 1..], q[e + 1..]);
      }
      hide Segments, SegmentEnd, SameButSeparators;
    }
  }

  lemma {:induction false} SameFast(t: Tree, at: nat, p: string, q: string, i: nat)
    requires Closed(t) && at < |t| && SameButSeparators(p, q) && i <= |p|
    ensures FastIndex(t, at, p, i) == FastIndex(t, at, q, i)
    decreases |p| - i
  {
    if i < |p| && IsLetter(p[i]) && Drive(p[i]) < |t[at].children| {
      SameFast(t, t[at].children[Drive(p[i])], p, q, i + 1);
    }
  }

  /** Swapping one kind of separator for another changes no result. */
  lemma SeparatorsInterchange(t: Tree, p: string, q: string)
    requires Closed(t) && SameButSeparators(p, q)
    ensures Resolve(t, p) == Resolve(t, q)
  {
    hide Descend, Segments, SameButSeparators;
    SameAt(p, q, 0);
    if IsSeparator(At(p, 0)) {
      SameTail(p, q, 1);
    } else {
      SameFast(t, 0, p, q, 0);
      if FastIndex(t, 0, p, 0).Some? {
        var (at, i) := FastIndex(t, 0, p, 0).value;
        SameAt(p, q, i);
        SameAt(p, q, i + 1);
        SameTail(p, q, i + 2);
        ColonIsNoSeparator();
      }
    }
  }

  lemma ColonIsNoSeparator()
    ensures !IsSeparator(':')
  {
  }

  lemma SameAt(p: string, q: string, i: nat)
    requires SameButSeparators(p, q)
    ensures |p| == |q|
    ensures At(p, i) == At(q, i) || (IsSeparator(At(p, i)) && IsSeparator(At(q, i)))
  {
  }

  lemma SameTail(p: string, q: string, i: nat)
    requires SameButSeparators(p, q)
    ensures |p| == |q| && (i <= |p| ==> Segments(p[i..]) == Segments(q[i..]))
  {
    if i <= |p| {
      SameSegments(p[i..], q[i..]);
    }
  }

  // ---------- paths as lists of names ----------

  /** Names without separators; an empty one is a separator too many. */
  predicate Names(parts: seq<string>) {
    forall i :: 0 <= i < |parts| ==> forall k :: 0 <= k < |parts[i]| ==> parts[i][k] !in "/\\."
  }

  function Join(parts: seq<string>): string {
    if parts == [] then "" else if |parts| == 1 then parts[0] else parts[0] + "/" + Join(parts[1..])
  }

  lemma FirstName(name: string, tail: string)
    requires Names([name])
    ensures Segments(name + "/" + tail) == [name] + Segments(tail)
  {
    var p, q := name + "/" + tail, "/" + tail;
    assert p == name + q;
    forall k | 0 <= k < |name|
      ensures !IsSeparator(name[k])
    {
      assert [name][0][k] !in "/\\.";
    }
    PlainEnd(name, 0);
    EndPrefix(name, q, 0);
    assert p[..|name|] == name && p[|name| + 1..] == tail;
  }

  /** A path is read as the names it is made of, whether or not a separator follows the
      last, which may be empty only then. */
  lemma {:induction false} SegmentsOfJoin(parts: seq<string>)
    requires Names(parts) && parts != []
    ensures Segments(Join(parts) + "/") == parts
    ensures parts[|parts| - 1] != "" ==> Segments(Join(parts)) == parts
    decreases |parts|
  {
    hide Segments, SegmentEnd;
    var name, rest := parts[0], parts[1..];
    NamesSplit(parts);
    NoSegments();
    assert parts == [name] + rest;
    if rest == [] {
      FirstName(name, "");
      assert name + "/" + "" == name + "/";
      assert [name] + [] == parts;
      if name != "" {
        SegmentsPlain(name);
      }
    } else {
      SegmentsOfJoin(rest);
      FirstName(name, Join(rest));
      FirstName(name, Join(rest) + "/");
      assert Join(parts) + "/" == name + "/" + (Join(rest) + "/");
    }
  }

  lemma NamesSplit(parts: seq<string>)
    requires Names(parts) && parts != []
    ensures Names([parts[0]]) && Names(parts[1..]) && (parts[0] != "" ==> Plain(parts[0]))
  {
    assert forall i :: 0 <= i < |parts| - 1 ==> parts[1..][i] == parts[i + 1];
  }

  // ---------- comparison ----------

  /** What a comparison says of texts that are long enough, or too short. */
  lemma ComparedIs(a: string, b: string, n: nat)
    ensures n <= |a| && n <= |b| ==> Compared(a, b, n) == CharSum(a[..n]) - CharSum(b[..n])
    ensures |a| == |b| < n ==> Compared(a, b, n) == CharSum(a) - CharSum(b)
    ensures |a| < n && |a| < |b| && b[|a|] != '\0' ==> Compared(a, b, n) == -1
    ensures |b| < n && |b| < |a| && a[|b|] != '\0' ==> Compared(a, b, n) == -1
  {
    assert a[..|a|] == a && b[..|b|] == b;
  }

  // ---------- drive letters ----------

  /** The number of a letter: nine letters to a row, small or capital. */
  function LetterNumber(c: char): nat {
    if 'A' <= c <= 'Z' then (c - 'A') as nat % 9 else if 'a' <= c <= 'z' then (c - 'a') as nat % 9 else 0
  }

  lemma DriveIsNumber(c: char)
    ensures IsLetter(c) <==> 'A' <= c <= 'Z' || 'a' <= c <= 'z'
    ensures IsLetter(c) ==> Drive(c) == LetterNumber(c)
  {
  }

  predicate Letters(p: string) {
    forall k :: 0 <= k < |p| ==> 'A' <= p[k] <= 'Z' || 'a' <= p[k] <= 'z'
  }

  /** Where a run of letters leads: each picks a child by its number. */
  function Walk(t: Tree, p: string): (r: Option<nat>)
    requires Closed(t) && Letters(p)
    ensures r.Some? ==> r.value < |t|
  {
    if p == "" then Some(0)
    else
      match Walk(t, p[..|p| - 1])
      case None => None
      case Some(at) =>
        var k := LetterNumber(p[|p| - 1]);
        if k < |t[at].children| then Some(t[at].children[k]) else None
  }

  /** Fast indexing from letter `k` on, where the first `k` have led to `at`. */
  lemma {:induction false} FastIsWalk(t: Tree, p: string, tail: string, k: nat, at: nat)
    requires Closed(t) && Letters(p) && k <= |p| && Walk(t, p[..k]) == Some(at)
    requires tail == "" || !IsLetter(tail[0])
    ensures FastIndex(t, at, p + tail, k) == match Walk(t, p) case None => None case Some(a) => Some((a, |p|))
    decreases |p| - k
  {
    if k == |p| {
      assert p[..k] == p && (tail != "" ==> (p + tail)[k] == tail[0]);
    } else {
      var q := p[..k + 1];
      assert q[..|q| - 1] == p[..k] && q[|q| - 1] == p[k] == (p + tail)[k];
      DriveIsNumber(p[k]);
      if LetterNumber(p[k]) < |t[at].children| {
        FastIsWalk(t, p, tail, k + 1, t[at].children[LetterNumber(p[k])]);
      } else {
        NoWayOn(t, p, k + 1);
      }
    }
  }

  lemma {:induction false} NoWayOn(t: Tree, p: string, k: nat)
    requires Closed(t) && Letters(p) && k <= |p| && Walk(t, p[..k]) == None
    ensures Walk(t, p) == None
    decreases |p| - k
  {
    if k == |p| {
      assert p[..k] == p;
    } else {
      var q := p[..k + 1];
      assert q[..|q| - 1] == p[..k];
      NoWayOn(t, p, k + 1);
    }
  }

  /** Behind a run of letters, a colon and a separator stand names, followed down from
      where the letters lead. */
  lemma DriveThenNames(t: Tree, p: string, s: char, rest: string)
    requires Closed(t) && Letters(p) && s in "/\\."
    ensures Resolve(t, p + [':', s] + rest)
            == match Walk(t, p) case None => None case Some(at) => Descend(t, at, Segments(rest))
  {
    hide FastIndex, Walk, Segments, Descend;
    var tail := [':', s] + rest;
    var full := p + tail;
    assert p + [':', s] + rest == full;
    WalkFromRoot(t, p);
    FastIsWalk(t, p, tail, 0, 0);
    assert full[|p|] == ':' && full[|p| + 1] == s && full[|p| + 2..] == rest;
    if p != "" {
      assert full[0] == p[0];
    }
  }

  /** With anything else behind it, or nothing, a run of letters stands for the node the
      letters lead to. */
  lemma LettersAlone(t: Tree, p: string, tail: string)
    requires Closed(t) && Letters(p) && (tail == "" || !IsLetter(tail[0]))
    requires p == "" ==> tail == "" || tail[0] !in "/\\."
    requires !(|tail| >= 2 && tail[0] == ':' && tail[1] in "/\\.")
    ensures Resolve(t, p + tail) == Walk(t, p)
  {
    hide FastIndex, Walk, Segments, Descend;
    var full := p + tail;
    WalkFromRoot(t, p);
    FastIsWalk(t, p, tail, 0, 0);
    if p != "" {
      assert full[0] == p[0];
    }
    assert At(full, |p|) == At(tail, 0) && At(full, |p| + 1) == At(tail, 1);
  }

  /** Behind a separator at the very beginning, names are followed down from the root. */
  lemma FromTheRoot(t: Tree, s: char, rest: string)
    requires Closed(t) && s in "/\\."
    ensures Resolve(t, [s] + rest) == Descend(t, 0, Segments(rest))
  {
    hide FastIndex, Segments, Descend;
    assert ([s] + rest)[1..] == rest;
  }

  lemma WalkFromRoot(t: Tree, p: string)
    requires Closed(t)
    ensures Letters(p[..0]) && Walk(t, p[..0]) == Some(0)
  {
  }

  /** One drive letter stands for the child of the root with its number. */
  lemma DriveLetter(t: Tree, c: char, s: char)
    requires Closed(t) && Letters([c]) && s in "/\\."
    ensures Resolve(t, [c, ':', s])
            == if LetterNumber(c) < |t[0].children| then Some(t[0].children[LetterNumber(c)]) else None
  {
    DriveThenNames(t, [c], s, "");
    NoSegments();
    assert [c] + [':', s] + "" == [c, ':', s];
    assert [c][..0] == "";
  }

  /** A node created at the root is what the next drive letter stands for. */
  lemma NextDrive(t: Tree, path: string, name: string, c: char, s: char)
    requires Closed(t) && Parent(t, path) == 0 && Letters([c]) && s in "/\\."
    requires LetterNumber(c) == |t[0].children|
    ensures Closed(Created(t, path, name)) && Resolve(Created(t, path, name), [c, ':', s]) == Some(|t|)
  {
    CreatedFacts(t, path, name);
    var u := Created(t, path, name);
    DriveLetter(u, c, s);
    assert u[0].children == t[0].children + [|t|];
  }
}
