/** The decoding tree: HuffmanTree::insert and HuffmanTree::read_code. */
module HuffmanTree {
  import opened Prelude
  import opened BitStrings
  import opened BitIo

  datatype Node = Inner(left: Option<Node>, right: Option<Node>) | Leaf(symbol: nat)

  datatype InsertError = ShorterPrefixExists | UsedAsPrefix

  function Child(n: Node, b: Bit): Option<Node>
    requires n.Inner?
  {
    if b == 0 then n.left else n.right
  }

  function WithChild(n: Node, b: Bit, c: Node): Node
    requires n.Inner?
  {
    if b == 0 then Inner(Some(c), n.right) else Inner(n.left, Some(c))
  }

  // The symbol s sits at the end of the path code below this place in the tree.
  ghost predicate HasCode(place: Option<Node>, code: seq<Bit>, s: nat) {
    match place
    case None => false
    case Some(Leaf(x)) => code == [] && x == s
    case Some(Inner(l, r)) => code != [] && HasCode(if code[0] == 0 then l else r, code[1..], s)
  }

  // Every inner node leads to a symbol.
  ghost predicate Full(n: Node) {
    match n
    case Leaf(_) => true
    case Inner(l, r) => (l.Some? || r.Some?) && FullPlace(l) && FullPlace(r)
  }

  ghost predicate FullPlace(place: Option<Node>) {
    place.Some? ==> Full(place.value)
  }

  // A root is an inner node, possibly without children.
  ghost predicate FullRoot(n: Node) {
    n.Inner? && FullPlace(n.left) && FullPlace(n.right)
  }

  lemma FullIsRoot(place: Option<Node>)
    requires FullPlace(place)
    ensures place.Some? ==> place.value.Leaf? || FullRoot(place.value)
  {
  }

  lemma {:induction false} SomeCode(n: Node) returns (code: seq<Bit>, s: nat)
    requires Full(n)
    ensures HasCode(Some(n), code, s)
    decreases n
  {
    match n
    case Leaf(x) => code, s := [], x;
    case Inner(l, r) =>
      var b: Bit := if l.Some? then 0 else 1;
      var c;
      if l.Some? {
        c, s := SomeCode(l.value);
      } else {
        c, s := SomeCode(r.value);
      }
      code := [b] + c;
      assert code[1..] == c;
  }

  // ---- insert ----

  // The walk of insert from a node, bit by bit: a missing child is created on the way down, and the
  // tree is the one the walk leaves, whether it ends well or not.
  function InsertNode(n: Node, code: seq<Bit>, s: nat): (r: (Node, Option<InsertError>))
    requires code != []
    decreases |code|
  {
    if n.Leaf? then (n, Some(ShorterPrefixExists))
    else
      var next := Child(n, code[0]);
      if |code| == 1 then
        if next.Some? then (n, Some(UsedAsPrefix)) else (WithChild(n, code[0], Leaf(s)), None)
      else
        var child := if next.Some? then next.value else Inner(None, None);
        var (sub, error) := InsertNode(child, code[1..], s);
        (WithChild(n, code[0], sub), error)
  }

  ghost predicate CodeBefore(n: Node, code: seq<Bit>) {
    exists c, x :: HasCode(Some(n), c, x) && c < code
  }

  ghost predicate CodeAfter(n: Node, code: seq<Bit>) {
    exists c, x :: HasCode(Some(n), c, x) && code <= c
  }

  lemma ChildCode(n: Node, b: Bit, c: seq<Bit>, x: nat)
    requires n.Inner?
    ensures HasCode(Some(n), [b] + c, x) <==> HasCode(Child(n, b), c, x)
  {
    assert ([b] + c)[1..] == c;
  }

  lemma LiftConflicts(n: Node, code: seq<Bit>, child: Node)
    requires n.Inner? && |code| > 1 && Child(n, code[0]) == Some(child)
    ensures CodeBefore(n, code) <==> CodeBefore(child, code[1..])
    ensures CodeAfter(n, code) <==> CodeAfter(child, code[1..])
  {
    var b := code[0];
    assert code == [b] + code[1..];
    forall c, x | HasCode(Some(child), c, x)
      ensures HasCode(Some(n), [b] + c, x)
      ensures c < code[1..] ==> [b] + c < code
      ensures code[1..] <= c ==> code <= [b] + c
    {
      ChildCode(n, b, c, x);
    }
    forall c, x | HasCode(Some(n), c, x) && (c < code || code <= c)
      ensures HasCode(Some(child), c[1..], x)
      ensures c < code ==> c[1..] < code[1..]
      ensures code <= c ==> code[1..] <= c[1..]
    {
      assert c != [] && c[0] == b;
    }
  }

  // Insertion fails exactly when some code is a prefix of the new one or the other
  // way round, and says which.
  lemma {:induction false} InsertOutcome(n: Node, code: seq<Bit>, s: nat)
    requires code != [] && (n.Leaf? || FullRoot(n))
    ensures InsertNode(n, code, s).1 == Some(ShorterPrefixExists) <==> CodeBefore(n, code)
    ensures InsertNode(n, code, s).1 == Some(UsedAsPrefix) <==> CodeAfter(n, code)
    decreases |code|
  {
    if n.Leaf? {
      assert HasCode(Some(n), [], n.symbol) && [] < code;
    } else {
      var b := code[0];
      var next := Child(n, b);
      assert code == [b] + code[1..];
      if next.None? {
        forall c, x | HasCode(Some(n), c, x) ensures !(c < code) && !(code <= c) {
          assert c != [] && HasCode(Child(n, c[0]), c[1..], x);
        }
        if |code| > 1 {
          EmptyInsert(code[1..], s);
        }
      } else if |code| == 1 {
        assert code[1..] == [];
        var c, x := SomeCode(next.value);
        ChildCode(n, b, c, x);
        assert code <= [b] + c;
        forall c, x | HasCode(Some(n), c, x) ensures !(c < code) {
          assert c != [];
        }
      } else {
        FullIsRoot(next);
        InsertOutcome(next.value, code[1..], s);
        LiftConflicts(n, code, next.value);
      }
    }
  }

  lemma {:induction false} EmptyInsert(code: seq<Bit>, s: nat)
    requires code != []
    ensures InsertNode(Inner(None, None), code, s).1 == None
    decreases |code|
  {
    if |code| > 1 {
      EmptyInsert(code[1..], s);
    }
  }

  // No node has been created when the walk fails: below a new node there is nothing to conflict with.
  lemma {:induction false} FailureCreatesNothing(n: Node, code: seq<Bit>, s: nat)
    requires code != [] && InsertNode(n, code, s).1.Some?
    ensures InsertNode(n, code, s).0 == n
    decreases |code|
  {
    if n.Inner? && |code| > 1 {
      var next := Child(n, code[0]);
      if next.None? {
        EmptyInsert(code[1..], s);
      } else {
        FailureCreatesNothing(next.value, code[1..], s);
      }
    }
  }

  // A successful insertion adds one code and changes nothing else.
  lemma {:induction false} InsertAdds(n: Node, code: seq<Bit>, s: nat, c: seq<Bit>, x: nat)
    requires code != [] && InsertNode(n, code, s).1 == None
    ensures HasCode(Some(InsertNode(n, code, s).0), c, x)
       <==> HasCode(Some(n), c, x) || (c == code && x == s)
    decreases |code|
  {
    var b := code[0];
    assert code == [b] + code[1..];
    if c != [] && c[0] == b {
      assert c == [b] + c[1..];
      if |code| == 1 {
        assert code[1..] == [];
      } else {
        var next := Child(n, b);
        var child := if next.Some? then next.value else Inner(None, None);
        InsertAdds(child, code[1..], s, c[1..], x);
      }
    }
  }

  lemma {:induction false} InsertFull(n: Node, code: seq<Bit>, s: nat)
    requires code != [] && (n.Leaf? || FullRoot(n)) && InsertNode(n, code, s).1 == None
    ensures InsertNode(n, code, s).0.Inner? && Full(InsertNode(n, code, s).0)
    ensures FullRoot(InsertNode(n, code, s).0)
    decreases |code|
  {
    if |code| > 1 {
      var next := Child(n, code[0]);
      FullIsRoot(next);
      InsertFull(if next.Some? then next.value else Inner(None, None), code[1..], s);
    }
  }

  // ---- read_code ----

  datatype ReadError = EmptyTree | InvalidPrefix | OutOfBits

  // Follows the bits u down from an inner node; also returns the bits left over.
  function Walk(n: Node, u: seq<Bit>): (Result<nat, ReadError>, seq<Bit>)
    requires n.Inner?
    decreases n
  {
    if u == [] then (Err(OutOfBits), [])
    else
      match Child(n, u[0])
      case None => (Err(InvalidPrefix), u[1..])
      case Some(Leaf(s)) => (Ok(s), u[1..])
      case Some(Inner(l, r)) => Walk(Inner(l, r), u[1..])
  }

  // A code at the front of the stream is read back as its symbol, and only that.
  lemma {:induction false} WalkFindsCode(n: Node, code: seq<Bit>, s: nat, rest: seq<Bit>)
    requires n.Inner? && HasCode(Some(n), code, s)
    ensures Walk(n, code + rest) == (Ok(s), rest)
    decreases n
  {
    var u := code + rest;
    assert u[0] == code[0] && u[1..] == code[1..] + rest;
    var next := Child(n, code[0]);
    if next.value.Inner? {
      WalkFindsCode(next.value, code[1..], s, rest);
    } else {
      assert code[1..] == [] && u[1..] == rest;
    }
  }

  // p runs along a code: it is the start of one or has one as its start.
  ghost predicate Along(place: Option<Node>, p: seq<Bit>) {
    exists c, x :: HasCode(place, c, x) && (p <= c || c <= p)
  }

  lemma {:induction false} WalkOk(n: Node, u: seq<Bit>) returns (code: seq<Bit>)
    requires n.Inner? && Walk(n, u).0.Ok?
    ensures HasCode(Some(n), code, Walk(n, u).0.value) && u == code + Walk(n, u).1
    decreases n
  {
    var next := Child(n, u[0]).value;
    var sub := [];
    if next.Inner? {
      sub := WalkOk(next, u[1..]);
    }
    code := [u[0]] + sub;
    assert u == [u[0]] + u[1..];
    ChildCode(n, u[0], sub, Walk(n, u).0.value);
  }

  lemma {:induction false} WalkOutOfBits(n: Node, u: seq<Bit>) returns (code: seq<Bit>, s: nat)
    requires n.Inner? && Full(n) && Walk(n, u).0 == Err(OutOfBits)
    ensures HasCode(Some(n), code, s) && u < code && Walk(n, u).1 == []
    decreases n
  {
    if u == [] {
      code, s := SomeCode(n);
    } else {
      var sub;
      sub, s := WalkOutOfBits(Child(n, u[0]).value, u[1..]);
      code := [u[0]] + sub;
      assert u == [u[0]] + u[1..];
      ChildCode(n, u[0], sub, s);
    }
  }

  lemma AlongChild(n: Node, b: Bit, p: seq<Bit>)
    requires n.Inner?
    ensures Along(Some(n), [b] + p) <==> Along(Child(n, b), p)
  {
    hide Child;
    forall c, x | HasCode(Child(n, b), c, x) && (p <= c || c <= p)
      ensures HasCode(Some(n), [b] + c, x) && ([b] + p <= [b] + c || [b] + c <= [b] + p)
    {
      ChildCode(n, b, c, x);
    }
    forall c, x | HasCode(Some(n), c, x) && ([b] + p <= c || c <= [b] + p)
      ensures HasCode(Child(n, b), c[1..], x) && (p <= c[1..] || c[1..] <= p)
    {
      assert c == [b] + c[1..];
      ChildCode(n, b, c[1..], x);
    }
  }

  // The walk stops at the first bit that leaves every code.
  lemma {:induction false} WalkInvalid(n: Node, u: seq<Bit>) returns (k: nat)
    requires n.Inner? && Full(n) && Walk(n, u).0 == Err(InvalidPrefix)
    ensures 0 < k <= |u| && Walk(n, u).1 == u[k..]
    ensures !Along(Some(n), u[..k]) && Along(Some(n), u[..k - 1])
    decreases n
  {
    hide HasCode;
    var b, v := u[0], u[1..];
    var next := Child(n, b);
    if next.None? {
      k := 1;
      var c, x := SomeCode(n);
      assert u[..0] <= c;
      assert !Along(None, []) by { NoCode(); }
    } else {
      k := WalkInvalid(next.value, v);
      AlongChild(n, b, v[..k - 1]);
      assert u[..k] == [b] + v[..k - 1];
      k := k + 1;
    }
    AlongChild(n, b, v[..k - 1]);
    assert u[..k] == [b] + v[..k - 1];
  }

  lemma NoCode()
    ensures forall c, x :: !HasCode(None, c, x)
  {
  }

  // No code is the start of another.
  lemma PrefixFree(n: Node, c: seq<Bit>, x: nat, d: seq<Bit>, y: nat)
    requires n.Inner? && HasCode(Some(n), c, x) && HasCode(Some(n), d, y) && c <= d
    ensures c == d && x == y
  {
    WalkFindsCode(n, c, x, d[|c|..]);
    WalkFindsCode(n, d, y, []);
    assert d == c + d[|c|..] && d == d + [];
  }

  // What the walk answers, in terms of the codes alone.
  ghost predicate Answers(place: Option<Node>, u: seq<Bit>, r: Result<nat, ReadError>, rest: seq<Bit>) {
    && (forall s: nat :: r == Ok(s) <==> exists c :: HasCode(place, c, s) && u == c + rest)
    && (r == Err(InvalidPrefix) <==> Along(place, []) && exists k :: 0 <= k <= |u| && !Along(place, u[..k]))
    && (r == Err(OutOfBits) <==> exists c, x :: HasCode(place, c, x) && u < c)
    && (r == Err(EmptyTree) <==> !Along(place, []))
  }

  // Every bit that was read was needed to tell.
  ghost predicate StopsAtOnce(place: Option<Node>, u: seq<Bit>, r: Result<nat, ReadError>, rest: seq<Bit>) {
    && (r == Err(InvalidPrefix) ==>
         exists k :: 0 < k <= |u| && rest == u[k..] && !Along(place, u[..k]) && Along(place, u[..k - 1]))
    && (r == Err(OutOfBits) ==> rest == [])
    && (r == Err(EmptyTree) ==> rest == u)
  }

  lemma OkAnswers(n: Node, u: seq<Bit>, code: seq<Bit>, s: nat, rest: seq<Bit>)
    requires n.Inner? && HasCode(Some(n), code, s) && u == code + rest
    ensures forall c, x :: HasCode(Some(n), c, x) && c <= u ==> c == code && x == s
    ensures forall c, x :: HasCode(Some(n), c, x) ==> !(u < c)
    ensures forall k :: 0 <= k <= |u| ==> Along(Some(n), u[..k])
  {
    hide HasCode;
    forall c, x | HasCode(Some(n), c, x) && (c <= u || u < c) ensures c == code && x == s && !(u < c) {
      assert code <= u;
      if c <= code {
        PrefixFree(n, c, x, code, s);
      } else {
        PrefixFree(n, code, s, c, x);
      }
    }
    forall k | 0 <= k <= |u| ensures Along(Some(n), u[..k]) {
      assert u[..k] <= code || code <= u[..k];
    }
  }

  lemma ThreeErrors(r: Result<nat, ReadError>)
    ensures r.Ok? || r == Err(EmptyTree) || r == Err(InvalidPrefix) || r == Err(OutOfBits)
  {
    match r
    case Ok(_) =>
    case Err(e) =>
      assert e.EmptyTree? || e.InvalidPrefix? || e.OutOfBits?;
  }

  // With a code at the front there is one answer: its symbol, and the code is what was read.
  lemma CodeAnswers(place: Option<Node>, u: seq<Bit>, code: seq<Bit>, s: nat, rest: seq<Bit>)
    requires place.Some? && place.value.Inner? && HasCode(place, code, s) && u == code + rest
    ensures forall r, left :: Answers(place, u, r, left) ==> r == Ok(s) && left == rest
  {
    hide HasCode;
    assert place == Some(place.value);
    OkAnswers(place.value, u, code, s, rest);
    assert Along(place, []) by { assert [] <= code; }
    forall r, left | Answers(place, u, r, left) ensures r == Ok(s) && left == rest {
      ThreeErrors(r);
      var c :| HasCode(place, c, r.value) && u == c + left;
      assert c <= u && left == u[|c|..] && rest == u[|code|..];
    }
  }

  lemma WalkAnswers(n: Node, u: seq<Bit>)
    requires n.Inner? && Full(n)
    ensures Answers(Some(n), u, Walk(n, u).0, Walk(n, u).1)
    ensures StopsAtOnce(Some(n), u, Walk(n, u).0, Walk(n, u).1)
  {
    hide HasCode, Walk;
    var (r, rest) := Walk(n, u);
    var c0, x0 := SomeCode(n);
    assert Along(Some(n), []);
    WalkCodes(n, u);
    match r
    case Ok(s) =>
      var code := WalkOk(n, u);
      OkAnswers(n, u, code, s, rest);
    case Err(OutOfBits) =>
      var code, s := WalkOutOfBits(n, u);
      forall k | 0 <= k <= |u| ensures Along(Some(n), u[..k]) {
        assert u[..k] <= code;
      }
    case Err(InvalidPrefix) =>
      var k := WalkInvalid(n, u);
      forall c, x | HasCode(Some(n), c, x) ensures !(u < c) {
        assert !(u[..k] <= c);
      }
  }

  lemma EmptyAnswers(u: seq<Bit>)
    ensures Answers(None, u, Err(EmptyTree), u) && StopsAtOnce(None, u, Err(EmptyTree), u)
  {
  }

  // A code at the front settles the answer, and the tree is not empty.
  lemma WalkCodes(n: Node, u: seq<Bit>)
    requires n.Inner?
    ensures forall c, x: nat :: HasCode(Some(n), c, x) && c <= u ==> Walk(n, u) == (Ok(x), u[|c|..])
    ensures Walk(n, u).0 != Err(EmptyTree)
  {
    forall c, x: nat | HasCode(Some(n), c, x) && c <= u ensures Walk(n, u) == (Ok(x), u[|c|..]) {
      assert u == c + u[|c|..];
      WalkFindsCode(n, c, x, u[|c|..]);
    }
    NotEmpty(n, u);
  }

  lemma {:induction false} NotEmpty(n: Node, u: seq<Bit>)
    requires n.Inner?
    ensures Walk(n, u).0 != Err(EmptyTree)
    decreases n
  {
    if u != [] && Child(n, u[0]).Some? && Child(n, u[0]).value.Inner? {
      NotEmpty(Child(n, u[0]).value, u[1..]);
    }
  }

  class HuffmanTree {
    var root: Option<Node>

    ghost predicate Valid()
      reads this
    {
      root.Some? ==> root.value.Inner? && Full(root.value)
    }

    // All codes in the tree.
    ghost predicate Holds(code: seq<Bit>, s: nat)
      reads this
    {
      HasCode(root, code, s)
    }

    constructor ()
      ensures Valid() && forall c, x :: !Holds(c, x)
    {
      root := None;
    }

    method Insert(symbol: nat, code: seq<Bit>) returns (r: Result<(), InsertError>)
      requires Valid() && code != []
      modifies this
      ensures Valid()
      ensures r.Ok? <==> forall c, x :: old(Holds(c, x)) ==> !(c <= code) && !(code <= c)
      ensures r == Err(ShorterPrefixExists) <==> exists c, x :: old(Holds(c, x)) && c < code
      ensures r.Ok? ==> forall c, x :: Holds(c, x) <==> old(Holds(c, x)) || (c == code && x == symbol)
      ensures r.Err? ==> root == old(root)
    {
      if root.None? {
        EmptyInsert(code, symbol);
        root := Some(Inner(None, None));
      }
      ghost var current := root.value;
      assert forall c, x :: HasCode(Some(current), c, x) <==> old(Holds(c, x));
      InsertOutcome(current, code, symbol);
      var (tree, error) := InsertNode(root.value, code, symbol);
      root := Some(tree);
      if error.Some? {
        FailureCreatesNothing(current, code, symbol);
        if error.value.ShorterPrefixExists? {
          assert CodeBefore(current, code);
          ghost var c, x :| HasCode(Some(current), c, x) && c < code;
          assert old(Holds(c, x)) && c <= code;
        } else {
          assert error == Some(UsedAsPrefix) && CodeAfter(current, code);
          ghost var c, x :| HasCode(Some(current), c, x) && code <= c;
          assert old(Holds(c, x));
        }
        return Err(error.value);
      }
      InsertFull(current, code, symbol);
      forall c, x
        ensures HasCode(Some(tree), c, x) <==> HasCode(Some(current), c, x) || (c == code && x == symbol)
      {
        InsertAdds(current, code, symbol, c, x);
      }
      r := Ok(());
    }

    method ReadCode(reader: BitReader) returns (r: Result<nat, ReadError>)
      requires Valid() && reader.Valid()
      modifies reader, reader.buffer
      ensures reader.Valid() && reader.Unconsumed() == old(reader.Unconsumed())
      ensures Answers(root, old(reader.Unread()), r, reader.Unread())
      ensures StopsAtOnce(root, old(reader.Unread()), r, reader.Unread())
      ensures r == Err(OutOfBits) ==> reader.input == []
    {
      hide Answers, StopsAtOnce, Full, HasCode;
      ghost var u := reader.Unread();
      if root.None? {
        EmptyAnswers(u);
        return Err(EmptyTree);
      }
      WalkAnswers(root.value, u);
      var left, right := root.value.left, root.value.right;
      while true
        invariant reader.Valid() && reader.Unconsumed() == old(reader.Unconsumed())
        invariant Walk(root.value, u) == Walk(Inner(left, right), reader.Unread())
        invariant root == old(root) && root.Some? && root.value.Inner?
        decreases Inner(left, right)
      {
        ghost var v := reader.Unread();
        var b := reader.ReadBits(1);
        if !b.Value? {
          return Err(OutOfBits);
        }
        OneBit(v);
        var next := if b.value == 0 then left else right;
        match next
        case None => return Err(InvalidPrefix);
        case Some(Leaf(s)) => return Ok(s);
        case Some(Inner(l, r)) => left, right := l, r;
      }
    }
  }

  lemma OneBit(v: seq<Bit>)
    requires v != []
    ensures FromLsb(v[..1]) == v[0]
  {
    assert v[..1] == [v[0]];
    assert [v[0]][1..] == [];
  }
}
