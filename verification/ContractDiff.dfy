/** Matching the operations of two API documents on the path below each root, parameter names blanked. */
module ContractDiff {
  import opened Options

  datatype Operation = Operation(verb: string, address: string)

  /** Index of the first closing brace. */
  function CloseAt(text: string): (at: Option<nat>)
    ensures at.Some? ==> at.value < |text| && text[at.value] == '}' && '}' !in text[..at.value]
    ensures at.None? ==> '}' !in text
  {
    if text == "" then None
    else if text[0] == '}' then Some(0)
    else
      match CloseAt(text[1..])
      case Some(k) =>
        assert text[..k + 1] == [text[0]] + text[1..][..k];
        Some(k + 1)
      case None => None
  }

  /** `re.sub(r"\{[^}]*\}", "{}", text)` */
  function ShapeOf(text: string): string
    decreases |text|
  {
    if text == "" then ""
    else if text[0] == '{' && CloseAt(text).Some? then "{}" + ShapeOf(text[CloseAt(text).value + 1..])
    else [text[0]] + ShapeOf(text[1..])
  }

  lemma {:induction false} NoCloseNoChange(text: string)
    requires '}' !in text
    ensures ShapeOf(text) == text
    decreases |text|
  {
    if text != "" {
      NoCloseNoChange(text[1..]);
      assert [text[0]] + text[1..] == text;
    }
  }

  /** Blanking twice is blanking once. */
  lemma {:induction false} ShapeIsIdempotent(text: string)
    ensures ShapeOf(ShapeOf(text)) == ShapeOf(text)
    decreases |text|
  {
    if text != "" {
      var out := ShapeOf(text);
      if text[0] == '{' && CloseAt(text).Some? {
        var rest := text[CloseAt(text).value + 1..];
        ShapeIsIdempotent(rest);
        assert out[0] == '{' && out[1] == '}' && out[1..][0] == '}';
        assert CloseAt(out) == Some(1);
        assert out[2..] == ShapeOf(rest);
      } else {
        ShapeIsIdempotent(text[1..]);
        assert out[1..] == ShapeOf(text[1..]);
        if text[0] == '{' {
          NoCloseNoChange(text);
        }
      }
    }
  }

  lemma {:induction false} FirstClose(head: string, tail: string)
    requires '}' !in head
    ensures CloseAt(head + "}" + tail) == Some(|head|)
  {
    var text := head + "}" + tail;
    if head != "" {
      assert text[1..] == head[1..] + "}" + tail;
      FirstClose(head[1..], tail);
    }
  }

  lemma GroupBlanked(inside: string, tail: string)
    requires '}' !in inside
    ensures ShapeOf("{" + inside + "}" + tail) == "{}" + ShapeOf(tail)
  {
    FirstClose("{" + inside, tail);
    assert ("{" + inside + "}" + tail)[|inside| + 2..] == tail;
  }

  /** `a` and `b` have one shape, and so have their remainders after the first closing brace. */
  predicate Alike(a: string, b: string) {
    && ShapeOf(a) == ShapeOf(b) && CloseAt(a).Some? && CloseAt(b).Some?
    && ShapeOf(a[CloseAt(a).value + 1..]) == ShapeOf(b[CloseAt(b).value + 1..])
  }

  lemma PrependKeepsAlike(c: char, a: string, b: string)
    requires Alike(a, b)
    ensures Alike([c] + a, [c] + b)
  {
    assert ([c] + a)[1..] == a && ([c] + b)[1..] == b;
    if c != '}' {
      assert CloseAt([c] + a) == Some(CloseAt(a).value + 1) && CloseAt([c] + b) == Some(CloseAt(b).value + 1);
      assert ([c] + a)[CloseAt(a).value + 2..] == a[CloseAt(a).value + 1..];
      assert ([c] + b)[CloseAt(b).value + 2..] == b[CloseAt(b).value + 1..];
    }
  }

  lemma {:induction false} PrefixKeepsAlike(before: string, a: string, b: string)
    requires Alike(a, b)
    ensures Alike(before + a, before + b)
    decreases |before|
  {
    if before == "" {
      assert before + a == a && before + b == b;
    } else {
      var x, y := before[1..] + a, before[1..] + b;
      assert Alike(x, y) by {
        PrefixKeepsAlike(before[1..], a, b);
      }
      PrependKeepsAlike(before[0], x, y);
      PrependsBack(before, a, x);
      PrependsBack(before, b, y);
    }
  }

  lemma PrependsBack(before: string, a: string, x: string)
    requires before != "" && x == before[1..] + a
    ensures [before[0]] + x == before + a
  {
  }

  /** Renaming one path parameter never changes the shape, wherever it stands. */
  lemma RenamingKeepsShape(before: string, p: string, q: string, after: string)
    requires '}' !in p && '}' !in q
    ensures ShapeOf(before + ("{" + p + "}" + after)) == ShapeOf(before + ("{" + q + "}" + after))
  {
    GroupBlanked(p, after);
    GroupBlanked(q, after);
    FirstClose("{" + p, after);
    FirstClose("{" + q, after);
    assert ("{" + p + "}" + after)[|p| + 2..] == after && ("{" + q + "}" + after)[|q| + 2..] == after;
    PrefixKeepsAlike(before, "{" + p + "}" + after, "{" + q + "}" + after);
  }

  // ---------------------------------------------------------------- the split

  /** The operation below its document's root. */
  function Below(o: Operation, root: string): Operation {
    if |root| <= |o.address| && o.address[..|root|] == root then o.(address := o.address[|root|..]) else o
  }

  function Shape(o: Operation, root: string): Operation {
    var b := Below(o, root);
    b.(address := ShapeOf(b.address))
  }

  datatype Split = Split(missing: set<Operation>, unused: set<Operation>, shared: map<Operation, Operation>)

  /** The dictionary from shape to operation; a later operation of the same shape wins. */
  method ByShape(operations: seq<Operation>, root: string) returns (index: map<Operation, Operation>)
    ensures forall o :: o in operations ==> Shape(o, root) in index
    ensures forall s :: s in index ==> index[s] in operations && Shape(index[s], root) == s
  {
    index := map[];
    var i := 0;
    while i < |operations|
      invariant 0 <= i <= |operations|
      invariant forall j :: 0 <= j < i ==> Shape(operations[j], root) in index
      invariant forall s :: s in index ==> index[s] in operations && Shape(index[s], root) == s
    {
      index := index[Shape(operations[i], root) := operations[i]];
      i := i + 1;
    }
  }

  /** What the contract requires and the backend lacks, the other way round, and what both declare,
      each shared operation with its counterpart. */
  method Compute(ours: seq<Operation>, theirs: seq<Operation>, ourRoot: string, theirRoot: string) returns (r: Split)
    ensures IsSplit(ours, theirs, ourRoot, theirRoot, r)
  {
    var theirsByShape := ByShape(theirs, theirRoot);
    var oursByShape := ByShape(ours, ourRoot);
    var missing := set o | o in ours && Shape(o, ourRoot) !in theirsByShape;
    var unused := set o | o in theirs && Shape(o, theirRoot) !in oursByShape;
    var shared := map o | o in ours && Shape(o, ourRoot) in theirsByShape :: theirsByShape[Shape(o, ourRoot)];
    r := Split(missing, unused, shared);
  }

  ghost predicate SameShape(o: Operation, ourRoot: string, t: Operation, theirRoot: string) {
    Shape(o, ourRoot) == Shape(t, theirRoot)
  }

  /** Stated without the dictionaries: an operation is missing (unused) iff no operation of the other
      document has its shape; every other one is shared with one that has. */
  ghost predicate IsSplit(ours: seq<Operation>, theirs: seq<Operation>, ourRoot: string, theirRoot: string, r: Split) {
    && (forall o :: o in r.missing <==> o in ours && forall t :: t in theirs ==> !SameShape(o, ourRoot, t, theirRoot))
    && (forall t :: t in r.unused <==> t in theirs && forall o :: o in ours ==> !SameShape(o, ourRoot, t, theirRoot))
    && (forall o :: o in r.shared <==> o in ours && o !in r.missing)
    && (forall o :: o in r.shared ==> r.shared[o] in theirs && SameShape(o, ourRoot, r.shared[o], theirRoot))
  }

  /** When no document declares two operations of one shape, the shared operations and their
      counterparts correspond one to one, and the counterparts are exactly the operations in use. */
  lemma SharedIsOneToOne(ours: seq<Operation>, theirs: seq<Operation>, ourRoot: string, theirRoot: string, r: Split)
    requires IsSplit(ours, theirs, ourRoot, theirRoot, r)
    requires forall o, p :: o in ours && p in ours && Shape(o, ourRoot) == Shape(p, ourRoot) ==> o == p
    requires forall t, u :: t in theirs && u in theirs && Shape(t, theirRoot) == Shape(u, theirRoot) ==> t == u
    ensures forall o, p :: o in r.shared && p in r.shared && r.shared[o] == r.shared[p] ==> o == p
    ensures forall t :: t in theirs && t !in r.unused <==> exists o :: o in r.shared && r.shared[o] == t
  {
    forall t
      ensures t in theirs && t !in r.unused <==> exists o :: o in r.shared && r.shared[o] == t
    {
      if t in theirs && t !in r.unused {
        var o :| o in ours && SameShape(o, ourRoot, t, theirRoot);
        assert o in r.shared && r.shared[o] == t;
      }
      if o :| o in r.shared && r.shared[o] == t {
        assert o in ours && SameShape(o, ourRoot, t, theirRoot);
      }
    }
  }

  // ---------------------------------------------------------------- what the roots and shapes mean

  /** Below its root an operation is what follows the root; outside it, it is left as it is. */
  lemma BelowRoot(o: Operation, root: string, rest: string)
    ensures o.address == root + rest ==> Below(o, root) == Operation(o.verb, rest)
    ensures !(root <= o.address) ==> Below(o, root) == o
  {
    if o.address == root + rest {
      assert o.address[..|root|] == root && o.address[|root|..] == rest;
    }
  }

  /** So one path under two roots is one operation, whatever its parameters are called, and two verbs
      never are. */
  lemma SamePathMatches(
      verb: string, ourRoot: string, theirRoot: string, before: string, p: string, q: string, after: string)
    requires '}' !in p && '}' !in q
    ensures var o := Operation(verb, ourRoot + (before + ("{" + p + "}" + after)));
            var t := Operation(verb, theirRoot + (before + ("{" + q + "}" + after)));
            SameShape(o, ourRoot, t, theirRoot)
  {
    var ours, theirs := before + ("{" + p + "}" + after), before + ("{" + q + "}" + after);
    BelowRoot(Operation(verb, ourRoot + ours), ourRoot, ours);
    BelowRoot(Operation(verb, theirRoot + theirs), theirRoot, theirs);
    RenamingKeepsShape(before, p, q, after);
  }

  /** Addresses without a parameter match exactly when they are the same below their roots; verbs always
      have to be the same. */
  lemma PlainMatchIff(o: Operation, t: Operation, ourRoot: string, theirRoot: string)
    ensures SameShape(o, ourRoot, t, theirRoot) ==> o.verb == t.verb
    ensures '}' !in o.address && '}' !in t.address ==>
              (SameShape(o, ourRoot, t, theirRoot) <==> Below(o, ourRoot) == Below(t, theirRoot))
  {
    if '}' !in o.address && '}' !in t.address {
      NoCloseNoChange(Below(o, ourRoot).address);
      NoCloseNoChange(Below(t, theirRoot).address);
    }
  }
}
