/** The runtime staging of the netboot script: copying a list of binaries
    together with everything they need at run time, by a worklist over symbolic
    links, ELF interpreters and shared libraries.
 */
module RuntimeClosure {

  type Path = string

  datatype Option<T> = None | Some(value: T)

  /** What the extracted root file system holds under a path: a symbolic link,
      already resolved to the path it points at, a directory or plain file, or
      an ELF file with its interpreter and the names of its needed libraries. */
  datatype Node =
    | Link(target: Path)
    | Plain
    | Elf(interpreter: Option<Path>, needed: seq<string>)

  type Tree = map<Path, Node>

  /** The first candidate directory that holds the library. */
  function Provider(fs: Tree, dirs: seq<Path>, soname: string): Option<Path> {
    if dirs == [] then None
    else if dirs[0] + "/" + soname in fs then Some(dirs[0] + "/" + soname)
    else Provider(fs, dirs[1..], soname)
  }

  /** Library `soname` in directory number `i`. */
  function Candidate(dirs: seq<Path>, i: nat, soname: string): Path
    requires i < |dirs|
  {
    dirs[i] + "/" + soname
  }

  /** A library is taken from the first directory, in the order given, that has a
      file of its name, and from none if none has. */
  lemma {:induction false} ProviderIsFirst(fs: Tree, dirs: seq<Path>, soname: string)
    ensures match Provider(fs, dirs, soname)
            case None => forall i :: 0 <= i < |dirs| ==> Candidate(dirs, i, soname) !in fs
            case Some(q) => exists i :: FirstHit(fs, dirs, soname, i) && q == Candidate(dirs, i, soname)
    decreases |dirs|
  {
    if dirs != [] {
      if Candidate(dirs, 0, soname) in fs {
        assert FirstHit(fs, dirs, soname, 0);
      } else {
        ProviderIsFirst(fs, dirs[1..], soname);
        assert forall i :: 0 < i < |dirs| ==> Candidate(dirs, i, soname) == Candidate(dirs[1..], i - 1, soname);
        if Provider(fs, dirs[1..], soname).Some? {
          var i :| FirstHit(fs, dirs[1..], soname, i);
          assert FirstHit(fs, dirs, soname, i + 1);
        }
      }
    }
  }

  ghost predicate FirstHit(fs: Tree, dirs: seq<Path>, soname: string, i: int) {
    0 <= i < |dirs| && Candidate(dirs, i, soname) in fs && forall j :: 0 <= j < i ==> Candidate(dirs, j, soname) !in fs
  }

  /** What must be staged once `p` is: a link's target, an ELF file's
      interpreter and the providers of its libraries. */
  ghost predicate Needs(fs: Tree, dirs: seq<Path>, p: Path, q: Path)
    requires p in fs
  {
    match fs[p]
    case Link(t) => q == t
    case Plain => false
    case Elf(interpreter, needed) =>
      || interpreter == Some(q)
      || exists i :: 0 <= i < |needed| && Provider(fs, dirs, needed[i]) == Some(q)
  }

  /** Every library that `p` needs can be found. */
  predicate Provided(fs: Tree, dirs: seq<Path>, p: Path)
    requires p in fs
  {
    fs[p].Elf? ==> forall i :: 0 <= i < |fs[p].needed| ==> Provider(fs, dirs, fs[p].needed[i]).Some?
  }

  /** A set of paths that could be a complete staging: all exist, all libraries
      are found, and nothing in it needs anything outside it. */
  ghost predicate Closed(fs: Tree, dirs: seq<Path>, s: set<Path>) {
    && s <= fs.Keys
    && forall p :: p in s ==> Provided(fs, dirs, p) && forall q :: Needs(fs, dirs, p, q) ==> q in s
  }

  // ----- following links

  /** The path after `n` hops along links from `p`. */
  function Hop(fs: Tree, p: Path, n: nat): Option<Path> {
    if n == 0 then Some(p)
    else
      match Hop(fs, p, n - 1)
      case None => None
      case Some(q) => if q in fs && fs[q].Link? then Some(fs[q].target) else None
  }

  ghost predicate OnChain(fs: Tree, p: Path, q: Path) {
    exists n: nat :: Hop(fs, p, n) == Some(q)
  }

  /** The links from `p` on never leave the tree. */
  ghost predicate Whole(fs: Tree, p: Path) {
    forall q :: OnChain(fs, p, q) ==> q in fs
  }

  predicate IsEnd(fs: Tree, q: Path) {
    q in fs && !fs[q].Link?
  }

  /** The links from `p` on lead to something that is not a link. */
  ghost predicate Ends(fs: Tree, p: Path) {
    exists q :: OnChain(fs, p, q) && IsEnd(fs, q)
  }

  /** Whatever is in `s` is in the tree, with the targets of its links. */
  ghost predicate LinkClosed(fs: Tree, s: set<Path>) {
    s <= fs.Keys && forall p :: p in s && fs[p].Link? ==> fs[p].target in s
  }

  /** The same but for links to `p`, which is just being copied. */
  ghost predicate LinkClosedBut(fs: Tree, s: set<Path>, p: Path) {
    s <= fs.Keys && forall q :: q in s && fs[q].Link? ==> fs[q].target in s || fs[q].target == p
  }

  lemma {:induction false} HopFirst(fs: Tree, p: Path, n: nat)
    requires p in fs && fs[p].Link?
    ensures Hop(fs, p, n + 1) == Hop(fs, fs[p].target, n)
    decreases n
  {
    if n > 0 {
      HopFirst(fs, p, n - 1);
    } else {
      assert Hop(fs, p, 0) == Some(p);
    }
  }

  /** A link is on its chain, and so is what is on the chain of its target. */
  lemma ChainCons(fs: Tree, p: Path, q: Path)
    ensures OnChain(fs, p, p)
    ensures p in fs && fs[p].Link? ==> (OnChain(fs, p, q) <==> q == p || OnChain(fs, fs[p].target, q))
    ensures !(p in fs && fs[p].Link?) ==> (OnChain(fs, p, q) <==> q == p)
  {
    assert Hop(fs, p, 0) == Some(p);
    if p in fs && fs[p].Link? {
      if OnChain(fs, p, q) && q != p {
        var n: nat :| Hop(fs, p, n) == Some(q);
        HopFirst(fs, p, n - 1);
      }
      if OnChain(fs, fs[p].target, q) {
        var n: nat :| Hop(fs, fs[p].target, n) == Some(q);
        HopFirst(fs, p, n);
      }
    } else if OnChain(fs, p, q) {
      var n: nat :| Hop(fs, p, n) == Some(q);
      NoHop(fs, p, n);
    }
  }

  lemma {:induction false} NoHop(fs: Tree, p: Path, n: nat)
    requires !(p in fs && fs[p].Link?)
    ensures n > 0 ==> Hop(fs, p, n) == None
    decreases n
  {
    if n > 1 { NoHop(fs, p, n - 1); }
  }

  lemma {:induction false} HopInside(fs: Tree, s: set<Path>, p: Path, n: nat)
    requires LinkClosed(fs, s) && p in s
    ensures Hop(fs, p, n).Some? ==> Hop(fs, p, n).value in s
    decreases n
  {
    if n > 0 { HopInside(fs, s, p, n - 1); }
  }

  lemma ChainInside(fs: Tree, s: set<Path>, p: Path)
    requires LinkClosed(fs, s) && p in s
    ensures Whole(fs, p) && forall q :: OnChain(fs, p, q) ==> q in s
  {
    forall q | OnChain(fs, p, q) ensures q in s {
      var n: nat :| Hop(fs, p, n) == Some(q);
      HopInside(fs, s, p, n);
    }
  }

  /** What is on the chain of something on a chain is on that chain. */
  lemma {:induction false} HopAdd(fs: Tree, p: Path, n: nat, q: Path, m: nat)
    requires Hop(fs, p, n) == Some(q)
    ensures Hop(fs, p, n + m) == Hop(fs, q, m)
    decreases m
  {
    if m > 0 {
      HopAdd(fs, p, n, q, m - 1);
      assert n + m - 1 == n + (m - 1);
    }
  }

  /** A chain has at most one end, and everything on it leads there. */
  lemma EndOfChain(fs: Tree, p: Path, q: Path, end: Path)
    requires OnChain(fs, p, q) && OnChain(fs, p, end) && IsEnd(fs, end)
    ensures OnChain(fs, q, end) && (IsEnd(fs, q) ==> q == end)
  {
    var n: nat :| Hop(fs, p, n) == Some(q);
    var m: nat :| Hop(fs, p, m) == Some(end);
    if m < n {
      HopAdd(fs, p, m, end, n - m);
      NoHop(fs, end, n - m);
      assert false;
    }
    HopAdd(fs, p, n, q, m - n);
    ChainCons(fs, q, end);
  }

  /** `copy_relpath`: `None` when a path is missing.  It ends on link cycles too. */
  method CopyPath(fs: Tree, p: Path, copied: set<Path>) returns (r: Option<set<Path>>)
    requires LinkClosedBut(fs, copied, p)
    ensures r.Some? <==> Whole(fs, p)
    ensures r.Some? ==> LinkClosed(fs, r.value)
    ensures r.Some? ==> forall q :: q in r.value <==> q in copied || OnChain(fs, p, q)
    decreases fs.Keys - copied
  {
    forall q ensures OnChain(fs, p, p) && (!(p in fs && fs[p].Link?) ==> (OnChain(fs, p, q) <==> q == p)) {
      ChainCons(fs, p, q);
    }
    if p in copied {
      ChainInside(fs, copied, p);
      return Some(copied);
    }
    if p !in fs {
      return None;
    }
    if fs[p].Link? {
      assert p in fs.Keys - copied;
      r := CopyPath(fs, fs[p].target, copied + {p});
      forall q ensures OnChain(fs, p, q) <==> q == p || OnChain(fs, fs[p].target, q) {
        ChainCons(fs, p, q);
      }
    } else {
      r := Some(copied + {p});
    }
  }

  /** `Endless` stands for a loop that does not end. */
  datatype Resolution = Real(path: Path) | Endless

  /** `resolve_real_source_path`.  The set of links seen is not in the source; it
      is there to notice that the source's loop goes on for ever. */
  method ResolveReal(fs: Tree, p: Path) returns (r: Resolution)
    requires Whole(fs, p)
    ensures r.Real? <==> Ends(fs, p)
    ensures r.Real? ==> OnChain(fs, p, r.path) && IsEnd(fs, r.path)
  {
    var q := p;
    var seen: set<Path> := {};
    ChainCons(fs, p, p);
    while fs[q].Link?
      invariant OnChain(fs, p, q) && q in fs && (p in seen || q == p)
      invariant Circling(fs, seen, q)
      decreases fs.Keys - seen
    {
      if q in seen {
        NeverEnds(fs, seen, p);
        return Endless;
      }
      NextOnChain(fs, p, q);
      assert q in fs.Keys - seen;
      seen := seen + {q};
      q := fs[q].target;
    }
    r := Real(q);
  }

  /** All are links, to each other or to `q`. */
  ghost predicate Circling(fs: Tree, seen: set<Path>, q: Path) {
    seen <= fs.Keys && forall v :: v in seen ==> fs[v].Link? && (fs[v].target in seen || fs[v].target == q)
  }

  lemma NextOnChain(fs: Tree, p: Path, q: Path)
    requires OnChain(fs, p, q) && q in fs && fs[q].Link?
    ensures OnChain(fs, p, fs[q].target)
  {
    var n: nat :| Hop(fs, p, n) == Some(q);
    assert Hop(fs, p, n + 1) == Some(fs[q].target);
  }

  lemma NeverEnds(fs: Tree, seen: set<Path>, p: Path)
    requires p in seen && exists q :: q in seen && Circling(fs, seen, q)
    ensures !Ends(fs, p)
  {
    assert LinkClosed(fs, seen);
    ChainInside(fs, seen, p);
  }

  // ----- the worklist

  /** A complete staging of the seeds. */
  ghost predicate Staging(fs: Tree, dirs: seq<Path>, seeds: seq<Path>, t: set<Path>) {
    Closed(fs, dirs, t) && forall p :: p in seeds ==> p in t
  }

  /** Every staging contains what has been copied and what is queued. */
  ghost predicate Minimal(fs: Tree, dirs: seq<Path>, seeds: seq<Path>, queue: seq<Path>, copied: set<Path>) {
    forall t: set<Path> :: Staging(fs, dirs, seeds, t) ==> Within(queue, copied, t)
  }

  predicate Within(queue: seq<Path>, copied: set<Path>, t: set<Path>) {
    copied <= t && forall p :: p in queue ==> p in t
  }

  /** What has been copied lacks nothing but what is queued. */
  ghost predicate Pending(fs: Tree, dirs: seq<Path>, queue: seq<Path>, copied: set<Path>, inspected: set<Path>) {
    && LinkClosed(fs, copied)
    && inspected <= copied
    && (forall p :: p in copied && fs[p].Elf? ==> p in inspected)
    && (forall p :: p in inspected ==> fs[p].Elf? && Provided(fs, dirs, p))
    && (forall p, q :: p in inspected && Needs(fs, dirs, p, q) ==> q in copied || q in queue)
  }

  /** No link in the set leads round for ever. */
  ghost predicate Sound(fs: Tree, t: set<Path>) {
    forall p :: p in t ==> Ends(fs, p)
  }

  lemma ClosedLinks(fs: Tree, dirs: seq<Path>, t: set<Path>)
    requires Closed(fs, dirs, t)
    ensures LinkClosed(fs, t)
  {
    assert forall p :: p in t && fs[p].Link? ==> Needs(fs, dirs, p, fs[p].target);
  }

  /** `find_library_provider`. */
  method FindProvider(fs: Tree, dirs: seq<Path>, soname: string) returns (r: Option<Path>)
    ensures r == Provider(fs, dirs, soname)
  {
    for i := 0 to |dirs|
      invariant Provider(fs, dirs, soname) == Provider(fs, dirs[i..], soname)
    {
      var candidate := dirs[i] + "/" + soname;
      if candidate in fs {
        return Some(candidate);
      }
    }
    r := None;
  }

  /** Queues the providers of the needed libraries; `None` when one is missing. */
  method QueueLibraries(fs: Tree, dirs: seq<Path>, needed: seq<string>, queue: seq<Path>)
      returns (r: Option<seq<Path>>)
    ensures r.Some? <==> forall i :: 0 <= i < |needed| ==> Provider(fs, dirs, needed[i]).Some?
    ensures r.Some? ==> queue <= r.value
    ensures r.Some? ==> forall q :: q in r.value <==>
              q in queue || exists i :: 0 <= i < |needed| && Provider(fs, dirs, needed[i]) == Some(q)
  {
    var more := queue;
    for k := 0 to |needed|
      invariant queue <= more
      invariant forall i :: 0 <= i < k ==> Provider(fs, dirs, needed[i]).Some?
      invariant forall q :: q in more <==>
                  q in queue || exists i :: 0 <= i < k && Provider(fs, dirs, needed[i]) == Some(q)
    {
      var provider := FindProvider(fs, dirs, needed[k]);
      if provider.None? {
        return None;
      }
      more := more + [provider.value];
    }
    r := Some(more);
  }

  /** The chain of a queued path is in every staging, so if it breaks there is none. */
  lemma MinimalChain(fs: Tree, dirs: seq<Path>, seeds: seq<Path>, queue: seq<Path>, copied: set<Path>, p: Path)
    requires Minimal(fs, dirs, seeds, queue, copied) && p in queue
    ensures Whole(fs, p) || forall t: set<Path> :: !Staging(fs, dirs, seeds, t)
    ensures forall t: set<Path>, q :: Staging(fs, dirs, seeds, t) && OnChain(fs, p, q) ==> q in t
  {
    forall t: set<Path> | Staging(fs, dirs, seeds, t) ensures Whole(fs, p) && forall q :: OnChain(fs, p, q) ==> q in t {
      assert Within(queue, copied, t);
      ClosedLinks(fs, dirs, t);
      ChainInside(fs, t, p);
    }
  }

  lemma MinimalGrows(fs: Tree, dirs: seq<Path>, seeds: seq<Path>, queue: seq<Path>, copied: set<Path>, more: set<Path>, p: Path)
    requires Minimal(fs, dirs, seeds, queue, copied) && p in queue
    requires forall q :: q in more ==> q in copied || OnChain(fs, p, q)
    ensures Minimal(fs, dirs, seeds, queue, more)
  {
    MinimalChain(fs, dirs, seeds, queue, copied, p);
    forall t: set<Path> | Staging(fs, dirs, seeds, t) ensures Within(queue, more, t) {
      assert Within(queue, copied, t);
    }
  }

  lemma MinimalShrinks(fs: Tree, dirs: seq<Path>, seeds: seq<Path>, queue: seq<Path>, fewer: seq<Path>, copied: set<Path>)
    requires Minimal(fs, dirs, seeds, queue, copied) && forall p :: p in fewer ==> p in queue
    ensures Minimal(fs, dirs, seeds, fewer, copied)
  {
    forall t: set<Path> | Staging(fs, dirs, seeds, t) ensures Within(fewer, copied, t) {
      assert Within(queue, copied, t);
    }
  }

  /** What a copied ELF file needs is in every staging. */
  lemma MinimalNeeds(fs: Tree, dirs: seq<Path>, seeds: seq<Path>, queue: seq<Path>, more: seq<Path>, copied: set<Path>, p: Path)
    requires Minimal(fs, dirs, seeds, queue, copied) && p in copied && p in fs
    requires forall q :: q in more ==> q in queue || Needs(fs, dirs, p, q)
    ensures Minimal(fs, dirs, seeds, more, copied)
    ensures Provided(fs, dirs, p) || forall t: set<Path> :: !Staging(fs, dirs, seeds, t)
  {
    forall t: set<Path> | Staging(fs, dirs, seeds, t) ensures Within(more, copied, t) && Provided(fs, dirs, p) {
      assert Within(queue, copied, t);
    }
  }

  /** Copying a chain leaves at most its end uninspected. */
  lemma PendingChain(fs: Tree, dirs: seq<Path>, queue: seq<Path>, copied: set<Path>, inspected: set<Path>, p: Path, more: set<Path>, end: Path)
    requires Pending(fs, dirs, queue + [p], copied, inspected) && LinkClosed(fs, more)
    requires forall q :: q in more <==> q in copied || OnChain(fs, p, q)
    requires OnChain(fs, p, end) && IsEnd(fs, end)
    ensures end in more && p in more
    ensures end in inspected || !fs[end].Elf? ==> Pending(fs, dirs, queue, more, inspected)
    ensures forall q :: q in more && fs[q].Elf? ==> q in inspected || q == end
    ensures forall x, q :: x in inspected && Needs(fs, dirs, x, q) ==> q in more || q in queue
  {
    ChainCons(fs, p, p);
    forall q | q in more && fs[q].Elf? && q !in inspected ensures q == end {
      EndOfChain(fs, p, q, end);
    }
  }

  lemma SoundChain(fs: Tree, copied: set<Path>, p: Path, more: set<Path>, end: Path)
    requires Sound(fs, copied) && OnChain(fs, p, end) && IsEnd(fs, end)
    requires forall q :: q in more <==> q in copied || OnChain(fs, p, q)
    ensures Sound(fs, more)
  {
    forall q | q in more ensures Ends(fs, q) {
      if q !in copied { EndOfChain(fs, p, q, end); }
    }
  }

  /** Queues what an ELF file needs; `None` when a library has no provider. */
  method Inspect(fs: Tree, dirs: seq<Path>, p: Path, queue: seq<Path>) returns (r: Option<seq<Path>>)
    requires p in fs && fs[p].Elf?
    ensures r.Some? <==> Provided(fs, dirs, p)
    ensures r.Some? ==> forall q :: q in r.value <==> q in queue || Needs(fs, dirs, p, q)
  {
    var more := queue;
    if fs[p].interpreter.Some? {
      more := more + [fs[p].interpreter.value];
    }
    r := QueueLibraries(fs, dirs, fs[p].needed, more);
  }

  /** How the staging ends: complete, with a path missing, or not at all. */
  datatype Outcome = Copied(paths: set<Path>) | Missing | NoEnd

  /** `copy_binary_runtime`.  It completes if and only if the seeds have a staging
      without endless links, and then what it copies is the least staging.  When
      nothing is missing, it fails to end exactly when every staging has a link
      that leads round for ever. */
  method CopyBinaryRuntime(fs: Tree, dirs: seq<Path>, seeds: seq<Path>) returns (r: Outcome)
    ensures r.Copied? ==> Staging(fs, dirs, seeds, r.paths) && Sound(fs, r.paths)
    ensures r.Copied? ==> forall t: set<Path> :: Staging(fs, dirs, seeds, t) ==> r.paths <= t
    ensures r.Missing? ==> forall t: set<Path> :: !Staging(fs, dirs, seeds, t)
    ensures r.NoEnd? ==> forall t: set<Path> :: Staging(fs, dirs, seeds, t) ==> !Sound(fs, t)
  {
    var queue := seeds;
    var copied: set<Path> := {};
    var inspected: set<Path> := {};
    while queue != []
      invariant forall p :: p in seeds ==> p in copied || p in queue
      invariant Minimal(fs, dirs, seeds, queue, copied)
      invariant Pending(fs, dirs, queue, copied, inspected) && Sound(fs, copied)
      decreases fs.Keys - inspected, |queue|
    {
      var p, rest := queue[|queue| - 1], queue[..|queue| - 1];
      assert queue == rest + [p];
      var outcome, end;
      outcome, copied, end := TakePath(fs, dirs, seeds, queue, rest, copied, inspected, p);
      if !outcome.Copied? { return outcome; }
      queue := rest;
      if end in inspected || !fs[end].Elf? {
        continue;
      }
      var more := Inspect(fs, dirs, end, queue);
      MinimalNeeds(fs, dirs, seeds, queue, if more.Some? then more.value else queue, copied, end);
      if more.None? {
        return Missing;
      }
      assert end in fs.Keys - inspected;
      inspected := inspected + {end};
      queue := more.value;
    }
    LeftNothing(fs, dirs, seeds, copied, inspected);
    r := Copied(copied);
  }

  /** One queued path: copies its link chain and finds its end. */
  method TakePath(fs: Tree, dirs: seq<Path>, seeds: seq<Path>, queue: seq<Path>, rest: seq<Path>, copied: set<Path>,
                  ghost inspected: set<Path>, p: Path) returns (outcome: Outcome, more: set<Path>, end: Path)
    requires queue == rest + [p] && (forall q :: q in seeds ==> q in copied || q in queue)
    requires Minimal(fs, dirs, seeds, queue, copied) && Pending(fs, dirs, queue, copied, inspected) && Sound(fs, copied)
    ensures outcome.Missing? ==> forall t: set<Path> :: !Staging(fs, dirs, seeds, t)
    ensures outcome.NoEnd? ==> forall t: set<Path> :: Staging(fs, dirs, seeds, t) ==> !Sound(fs, t)
    ensures outcome.Copied? ==>
      && copied <= more && p in more && end in more && IsEnd(fs, end)
      && Minimal(fs, dirs, seeds, rest, more) && Sound(fs, more) && LinkClosed(fs, more)
      && (end in inspected || !fs[end].Elf? ==> Pending(fs, dirs, rest, more, inspected))
      && (forall q :: q in more && fs[q].Elf? ==> q in inspected || q == end)
      && (forall x, q :: x in inspected && Needs(fs, dirs, x, q) ==> q in more || q in rest)
  {
    more, end := copied, p;
    MinimalChain(fs, dirs, seeds, queue, copied, p);
    var result := CopyPath(fs, p, copied);
    if result.None? { return Missing, more, end; }
    var resolved := ResolveReal(fs, p);
    if resolved.Endless? {
      EndlessQueue(fs, dirs, seeds, queue, copied, p);
      return NoEnd, more, end;
    }
    more, end := result.value, resolved.path;
    outcome := Copied(more);
    MinimalGrows(fs, dirs, seeds, queue, copied, more, p);
    MinimalShrinks(fs, dirs, seeds, queue, rest, more);
    PendingChain(fs, dirs, rest, copied, inspected, p, more, end);
    SoundChain(fs, copied, p, more, end);
  }

  lemma EndlessQueue(fs: Tree, dirs: seq<Path>, seeds: seq<Path>, queue: seq<Path>, copied: set<Path>, p: Path)
    requires Minimal(fs, dirs, seeds, queue, copied) && p in queue && !Ends(fs, p)
    ensures forall t: set<Path> :: Staging(fs, dirs, seeds, t) ==> !Sound(fs, t)
  {
    forall t: set<Path> | Staging(fs, dirs, seeds, t) ensures !Sound(fs, t) {
      assert Within(queue, copied, t);
    }
  }

  lemma LeftNothing(fs: Tree, dirs: seq<Path>, seeds: seq<Path>, copied: set<Path>, inspected: set<Path>)
    requires Pending(fs, dirs, [], copied, inspected) && forall p :: p in seeds ==> p in copied
    ensures Staging(fs, dirs, seeds, copied)
  {
  }
}
