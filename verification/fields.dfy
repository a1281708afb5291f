/**
 * `Fields.extractField`: the depth-first, left-to-right walk over a parsed
 * template that collects the names of the fields it references, each once,
 * in the order of their first appearance.
 */
module Extraction {
  import opened Strings
  import opened Parse
  import opened Sets

  /** How a walk ends: normally, or by the panic on a dotted field, which
      carries that field's path. */
  datatype Status = Completed | Panicked(ident: seq<string>)

  /** The names collected when a walk ends, and how it ended. */
  datatype Walk = Walk(names: seq<string>, status: Status)

  /** No string occurs twice. */
  predicate NoDup(s: seq<string>)
  {
    forall i, j :: 0 <= i < j < |s| ==> s[i] != s[j]
  }

  /** The name `extractField` records for a field of at most one segment:
      `strings.Join(n.Ident, ".")`. */
  function FieldName(ident: seq<string>): string
  {
    Join(ident, '.')
  }

  // ---------------------------------------------------------------------
  // The walk, as a function of the names collected before it

  /** `extractField(n)` started with `names` already collected. */
  function Extract(n: Node, names: seq<string>): Walk
    decreases n
  {
    match n
    case List(ns) => ExtractEach(ns, names)
    case Action(p) => Extract(p, names)
    case Pipe(cs) => ExtractEach(cs, names)
    case Command(args) => ExtractEach(args, names)
    case Field(ident) =>
      if |ident| > 1 then Walk(names, Panicked(ident))
      else if FieldName(ident) in names then Walk(names, Completed)
      else Walk(names + [FieldName(ident)], Completed)
    case Other => Walk(names, Completed)
  }

  /** `extractField` on each of `ns` in turn, until one panics. */
  function ExtractEach(ns: seq<Node>, names: seq<string>): Walk
    decreases ns
  {
    if ns == [] then Walk(names, Completed)
    else
      var w := Extract(ns[0], names);
      if w.status.Panicked? then w else ExtractEach(ns[1..], w.names)
  }

  // ---------------------------------------------------------------------
  // An independent description: the field references in walk order, and
  // the first occurrence of each

  /** Whether the tree holds a field of two or more segments. */
  predicate Dotted(n: Node)
    decreases n
  {
    match n
    case List(ns) => DottedSome(ns)
    case Action(p) => Dotted(p)
    case Pipe(cs) => DottedSome(cs)
    case Command(args) => DottedSome(args)
    case Field(ident) => |ident| > 1
    case Other => false
  }

  predicate DottedSome(ns: seq<Node>)
    decreases ns
  {
    ns != [] && (Dotted(ns[0]) || DottedSome(ns[1..]))
  }

  /** The paths of the fields of two or more segments, in depth-first,
      left-to-right order. */
  function DottedIdents(n: Node): seq<seq<string>>
    decreases n
  {
    match n
    case List(ns) => DottedIdentsEach(ns)
    case Action(p) => DottedIdents(p)
    case Pipe(cs) => DottedIdentsEach(cs)
    case Command(args) => DottedIdentsEach(args)
    case Field(ident) => if |ident| > 1 then [ident] else []
    case Other => []
  }

  function DottedIdentsEach(ns: seq<Node>): seq<seq<string>>
    decreases ns
  {
    if ns == [] then [] else DottedIdents(ns[0]) + DottedIdentsEach(ns[1..])
  }

  /** The names of the fields of at most one segment, in depth-first,
      left-to-right order, repeats included. */
  function Occurrences(n: Node): seq<string>
    decreases n
  {
    match n
    case List(ns) => OccurrencesEach(ns)
    case Action(p) => Occurrences(p)
    case Pipe(cs) => OccurrencesEach(cs)
    case Command(args) => OccurrencesEach(args)
    case Field(ident) => if |ident| > 1 then [] else [FieldName(ident)]
    case Other => []
  }

  function OccurrencesEach(ns: seq<Node>): seq<string>
    decreases ns
  {
    if ns == [] then [] else Occurrences(ns[0]) + OccurrencesEach(ns[1..])
  }

  /** `acc` followed by each element of `xs` that is not already there. */
  function DedupFrom(acc: seq<string>, xs: seq<string>): seq<string>
    decreases |xs|
  {
    if xs == [] then acc
    else DedupFrom(if xs[0] in acc then acc else acc + [xs[0]], xs[1..])
  }

  /** The position of the first `x` in `xs`. */
  function FirstIndex(xs: seq<string>, x: string): (k: nat)
    requires x in xs
    ensures k < |xs| && xs[k] == x && x !in xs[..k]
  {
    if xs[0] == x then 0
    else
      var k := 1 + FirstIndex(xs[1..], x);
      assert xs[..k] == [xs[0]] + xs[1..][..k - 1];
      k
  }

  // ---------------------------------------------------------------------
  // Properties of the reference

  /** Deduplicating a concatenation is deduplicating in two steps. */
  lemma {:induction false} DedupFromAppend(acc: seq<string>, xs: seq<string>, ys: seq<string>)
    ensures DedupFrom(acc, xs + ys) == DedupFrom(DedupFrom(acc, xs), ys)
    decreases |xs|
  {
    if xs != [] {
      assert (xs + ys)[0] == xs[0] && (xs + ys)[1..] == xs[1..] + ys;
      DedupFromAppend(if xs[0] in acc then acc else acc + [xs[0]], xs[1..], ys);
    } else {
      assert xs + ys == ys;
    }
  }

  /** What `DedupFrom` returns, said without it: `acc` unchanged at the
      front, no repeats, and exactly the elements of `acc` and `xs`, the new
      ones all taken from `xs`. */
  lemma {:induction false} DedupFromElements(acc: seq<string>, xs: seq<string>)
    requires NoDup(acc)
    ensures var r := DedupFrom(acc, xs);
      && |acc| <= |r| && r[..|acc|] == acc
      && NoDup(r)
      && (forall x :: x in r <==> x in acc || x in xs)
      && (forall i :: |acc| <= i < |r| ==> r[i] !in acc && r[i] in xs)
    decreases |xs|
  {
    if xs != [] {
      var x := xs[0];
      var acc' := if x in acc then acc else acc + [x];
      DedupFromElements(acc', xs[1..]);
      var r := DedupFrom(acc', xs[1..]);
      assert xs == [x] + xs[1..];
      assert r[..|acc|] == acc by {
        assert r[..|acc'|][..|acc|] == acc;
      }
      forall i | |acc| <= i < |r|
        ensures r[i] !in acc && r[i] in xs
      {
        if x !in acc && i == |acc| {
          assert r[i] == r[..|acc'|][i];
        }
      }
    }
  }

  /** ... and the new elements in the order of their first occurrence in
      `xs`. */
  lemma {:induction false} DedupFromOrder(acc: seq<string>, xs: seq<string>)
    requires NoDup(acc)
    ensures var r := DedupFrom(acc, xs);
      forall i, j :: |acc| <= i < j < |r| ==>
        r[i] in xs && r[j] in xs && FirstIndex(xs, r[i]) < FirstIndex(xs, r[j])
    decreases |xs|
  {
    DedupFromElements(acc, xs);
    if xs != [] {
      var x := xs[0];
      var acc' := if x in acc then acc else acc + [x];
      DedupFromOrder(acc', xs[1..]);
      DedupFromElements(acc', xs[1..]);
      var r := DedupFrom(acc', xs[1..]);
      assert r == DedupFrom(acc, xs);
      forall i, j | |acc| <= i < j < |r|
        ensures FirstIndex(xs, r[i]) < FirstIndex(xs, r[j])
      {
        assert r[j] != x by {
          if x in acc {
            assert r[j] !in acc;
          } else {
            assert r[..|acc'|][|acc|] == x;
          }
        }
        assert r[j] in xs[1..];
        assert FirstIndex(xs, r[j]) == 1 + FirstIndex(xs[1..], r[j]);
        if r[i] != x {
          assert r[i] in xs[1..];
          assert FirstIndex(xs, r[i]) == 1 + FirstIndex(xs[1..], r[i]);
        }
      }
    }
  }

  // ---------------------------------------------------------------------
  // The walk against the reference

  /** A walk panics exactly when the tree holds a dotted field, and then
      with the path of the first dotted field in walk order. Without one, it collects exactly the
      deduplicated field references, in walk order, after the names it
      started with. */
  lemma {:induction false} ExtractIsDedup(n: Node, acc: seq<string>)
    ensures Extract(n, acc).status.Panicked? <==> Dotted(n)
    ensures Dotted(n) <==> DottedIdents(n) != []
    ensures Extract(n, acc).status.Panicked? ==> Extract(n, acc).status.ident == DottedIdents(n)[0]
    ensures !Dotted(n) ==> Extract(n, acc).names == DedupFrom(acc, Occurrences(n))
    decreases n
  {
    match n
    case List(ns) => ExtractEachIsDedup(ns, acc);
    case Action(p) => ExtractIsDedup(p, acc);
    case Pipe(cs) => ExtractEachIsDedup(cs, acc);
    case Command(args) => ExtractEachIsDedup(args, acc);
    case Field(ident) =>
    case Other =>
  }

  lemma {:induction false} ExtractEachIsDedup(ns: seq<Node>, acc: seq<string>)
    ensures ExtractEach(ns, acc).status.Panicked? <==> DottedSome(ns)
    ensures DottedSome(ns) <==> DottedIdentsEach(ns) != []
    ensures ExtractEach(ns, acc).status.Panicked? ==> ExtractEach(ns, acc).status.ident == DottedIdentsEach(ns)[0]
    ensures !DottedSome(ns) ==> ExtractEach(ns, acc).names == DedupFrom(acc, OccurrencesEach(ns))
    decreases ns
  {
    if ns != [] {
      ExtractIsDedup(ns[0], acc);
      var w := Extract(ns[0], acc);
      if !w.status.Panicked? {
        ExtractEachIsDedup(ns[1..], w.names);
        if !DottedSome(ns) {
          DedupFromAppend(acc, Occurrences(ns[0]), OccurrencesEach(ns[1..]));
        }
      }
    }
  }

  /** A walk only appends: the names it started with stay in place, and if
      they held no repeats, neither does the result. Every name it adds is
      the name of a field of at most one segment in the tree, so a dotted
      field adds nothing. This holds for a walk cut short by a panic as
      well. */
  lemma {:induction false} ExtractOnlyAppends(n: Node, acc: seq<string>)
    requires NoDup(acc)
    ensures |acc| <= |Extract(n, acc).names| && Extract(n, acc).names[..|acc|] == acc
    ensures NoDup(Extract(n, acc).names)
    ensures forall x :: x in Extract(n, acc).names ==> x in acc || x in Occurrences(n)
    decreases n
  {
    match n
    case List(ns) => ExtractEachOnlyAppends(ns, acc);
    case Action(p) => ExtractOnlyAppends(p, acc);
    case Pipe(cs) => ExtractEachOnlyAppends(cs, acc);
    case Command(args) => ExtractEachOnlyAppends(args, acc);
    case Field(ident) =>
    case Other =>
  }

  lemma {:induction false} ExtractEachOnlyAppends(ns: seq<Node>, acc: seq<string>)
    requires NoDup(acc)
    ensures |acc| <= |ExtractEach(ns, acc).names| && ExtractEach(ns, acc).names[..|acc|] == acc
    ensures NoDup(ExtractEach(ns, acc).names)
    ensures forall x :: x in ExtractEach(ns, acc).names ==> x in acc || x in OccurrencesEach(ns)
    decreases ns
  {
    if ns != [] {
      ExtractOnlyAppends(ns[0], acc);
      var w := Extract(ns[0], acc);
      if !w.status.Panicked? {
        ExtractEachOnlyAppends(ns[1..], w.names);
        var r := ExtractEach(ns[1..], w.names).names;
        assert r[..|acc|] == r[..|w.names|][..|acc|];
      }
    }
  }

  /** Deduplicating elements that are all present already changes nothing. */
  lemma {:induction false} DedupFromAllSeen(acc: seq<string>, xs: seq<string>)
    requires forall x :: x in xs ==> x in acc
    ensures DedupFrom(acc, xs) == acc
    decreases |xs|
  {
    if xs != [] {
      assert xs[0] in xs;
      DedupFromAllSeen(acc, xs[1..]);
    }
  }

  /** A subtree whose field references were all collected before (a field
      seen already, a node of a kind the walk does not know) leaves the
      names as they were. */
  lemma NothingNewNothingAdded(n: Node, acc: seq<string>)
    requires !Dotted(n)
    requires forall x :: x in Occurrences(n) ==> x in acc
    ensures Extract(n, acc) == Walk(acc, Completed)
  {
    ExtractIsDedup(n, acc);
    DedupFromAllSeen(acc, Occurrences(n));
  }

  /** A whole extraction over a tree without dotted fields completes with
      the distinct field names, each once, ordered by first appearance in
      the depth-first, left-to-right walk. A tree without field references
      gives no names. */
  lemma NamesInFirstOccurrenceOrder(root: Node)
    requires !Dotted(root)
    ensures Extract(root, []).status == Completed
    ensures var r, occ := Extract(root, []).names, Occurrences(root);
      && NoDup(r)
      && (forall x :: x in r <==> x in occ)
      && (forall i, j :: 0 <= i < j < |r| ==> FirstIndex(occ, r[i]) < FirstIndex(occ, r[j]))
    ensures Occurrences(root) == [] ==> Extract(root, []).names == []
  {
    ExtractIsDedup(root, []);
    DedupFromElements([], Occurrences(root));
    DedupFromOrder([], Occurrences(root));
  }

  // ---------------------------------------------------------------------
  // The Go object

  /** `Fields`: the presence set and the list of names in the order found. */
  class Fields {
    const seen: Set  // the Go field `set`
    var names: seq<string>

    /** The set and the list hold the same names, and the list none twice. */
    ghost predicate Valid()
      reads this, seen
    {
      NoDup(names) && forall x :: x in seen.members <==> x in names
    }

    /** `Fields{set: NewSet()}`. */
    constructor ()
      ensures Valid() && fresh(seen) && names == []
    {
      seen := new Set();
      names := [];
    }

    /** `f.extractField(node)`; a panic comes back as `Panicked`, with the
        names collected up to it left in place. */
    method ExtractField(node: Node) returns (status: Status)
      requires Valid()
      modifies this, seen
      ensures Valid()
      ensures Walk(names, status) == Extract(node, old(names))
      decreases node
    {
      status := Completed;
      match node
      case List(ns) =>
        for i := 0 to |ns|
          invariant Valid() && status == Completed
          invariant Extract(node, old(names)) == ExtractEach(ns[i..], names)
        {
          assert ns[i..][1..] == ns[i + 1..];
          status := ExtractField(ns[i]);
          if status.Panicked? {
            return;
          }
        }
        assert ns[|ns|..] == [];
      case Action(p) =>
        status := ExtractField(p);
      case Pipe(cs) =>
        for i := 0 to |cs|
          invariant Valid() && status == Completed
          invariant Extract(node, old(names)) == ExtractEach(cs[i..], names)
        {
          assert cs[i..][1..] == cs[i + 1..];
          status := ExtractField(cs[i]);
          if status.Panicked? {
            return;
          }
        }
        assert cs[|cs|..] == [];
      case Command(args) =>
        for i := 0 to |args|
          invariant Valid() && status == Completed
          invariant Extract(node, old(names)) == ExtractEach(args[i..], names)
        {
          assert args[i..][1..] == args[i + 1..];
          status := ExtractField(args[i]);
          if status.Panicked? {
            return;
          }
        }
        assert args[|args|..] == [];
      case Field(ident) =>
        if |ident| > 1 {
          return Panicked(ident);
        }
        var name := Join(ident, '.');
        var found := seen.Find(name);
        if found {
          return;
        }
        seen.Add(name);
        names := names + [name];
      case Other =>
    }
  }
}
