/** The netipv6zone fix: positional composite literals of `net.IPAddr`,
    `net.UDPAddr` and `net.TCPAddr` are rewritten to keyed form, element 0
    becoming `IP: e`, element 1 becoming `Port: e` or, when it is the literal
    `0`, being deleted.

    Three levels are modelled:
    - `RewriteElts`, the closed form of what happens to one literal's elements;
    - `RangeLoop`, the Go `for i, e := range cl.Elts` loop step by step over the
      slice's backing array, proved to compute `RewriteElts`;
    - the class `CompositeLit` and the method `Fix`, which update the literals
      in place and are proved against the two functions above. */
module NetIPv6Zone {
  import opened GoAst

  // Registration metadata of the fix.
  const FixName: string := "netipv6zone"
  const FixDate: string := "2012-11-26"

  const NetPkg: string := "net"
  const IPKey: string := "IP"
  const PortKey: string := "Port"
  /** Source text of the basic literal that is deleted from position 1. */
  const ZeroLit: string := "0"

  /** The key/value element `key: value` that the fix writes (`ast.NewIdent(key)` as the key). */
  function KV(key: string, value: Expr): (kv: Expr)
  {
    KeyValue(Ident(key), value)
  }

  /** The names, inside package net, of the structures whose literals are migrated. */
  predicate IsAddrName(name: string)
  {
    name == "IPAddr" || name == "UDPAddr" || name == "TCPAddr"
  }

  /** The three qualified type expressions, as the parser builds them. */
  const NetAddrTypes: set<Option<Expr>> := {
    Some(Selector(Ident("net"), Some("IPAddr"))),
    Some(Selector(Ident("net"), Some("UDPAddr"))),
    Some(Selector(Ident("net"), Some("TCPAddr")))}

  /** The literal's type is the selector `net.IPAddr`, `net.UDPAddr` or `net.TCPAddr`.
      An elided type, a type that is not a selector, a selector on anything but the
      identifier `net` and a selector whose name is nil are all rejected. */
  predicate IsNetAddrType(typ: Option<Expr>)
    ensures IsNetAddrType(typ) <==> typ in NetAddrTypes
  {
    match typ
    case Some(Selector(Ident(pkg), Some(name))) => pkg == NetPkg && IsAddrName(name)
    case _ => false
  }

  // ---------------------------------------------------------------------------
  // One literal: the closed form

  /** The first element is given positionally, so the range loop gets past its
      first iteration without breaking. */
  predicate Positional(elts: seq<Expr>)
  {
    |elts| > 0 && !elts[0].KeyValue?
  }

  /** The second element of a positional literal is the integer literal zero. */
  predicate ElidesZero(elts: seq<Expr>)
  {
    Positional(elts) && |elts| > 1 && elts[1] == BasicLit(ZeroLit)
  }

  /** What becomes of element 1 once element 0 was positional. */
  function SecondElement(e: Expr): (r: seq<Expr>)
  {
    if e.KeyValue? then [e]
    else if e == BasicLit(ZeroLit) then []
    else [KV(PortKey, e)]
  }

  /** The elements of a matching literal after the fix. The elements change
      exactly when the first one was positional, and the result never has a
      positional first element, so a second run leaves it alone. */
  function RewriteElts(elts: seq<Expr>): (r: seq<Expr>)
    ensures r != elts <==> Positional(elts)
    ensures !Positional(r)
  {
    if !Positional(elts) then elts
    else if |elts| == 1 then [KV(IPKey, elts[0])]
    else [KV(IPKey, elts[0])] + SecondElement(elts[1]) + elts[2..]
  }

  lemma FirstElementKeyed(elts: seq<Expr>)
    requires Positional(elts)
    ensures |RewriteElts(elts)| > 0
    ensures RewriteElts(elts)[0] == KV(IPKey, elts[0])
  {
  }

  lemma ZeroSecondElementDeleted(elts: seq<Expr>)
    requires ElidesZero(elts)
    ensures |RewriteElts(elts)| == |elts| - 1
    ensures RewriteElts(elts)[1..] == elts[2..]
  {
  }

  lemma OtherSecondElementKeyed(elts: seq<Expr>)
    requires Positional(elts) && |elts| > 1
    requires !elts[1].KeyValue? && elts[1] != BasicLit(ZeroLit)
    ensures |RewriteElts(elts)| == |elts|
    ensures RewriteElts(elts)[1] == KV(PortKey, elts[1])
    ensures RewriteElts(elts)[2..] == elts[2..]
  {
  }

  /** The loop stops at the first key/value element: a keyed element 1 after a
      positional element 0 stays as it is. */
  lemma KeyedSecondElementKept(elts: seq<Expr>)
    requires Positional(elts) && |elts| > 1 && elts[1].KeyValue?
    ensures RewriteElts(elts) == [KV(IPKey, elts[0])] + elts[1..]
  {
  }

  /** The value an element contributes to the structure, with its key stripped. */
  function ValueOf(e: Expr): (v: Expr)
  {
    if e.KeyValue? then e.value else e
  }

  function Values(elts: seq<Expr>): (vs: seq<Expr>)
  {
    seq(|elts|, k requires 0 <= k < |elts| => ValueOf(elts[k]))
  }

  /** No value expression is lost, altered or reordered, except the deleted zero. */
  lemma RewriteKeepsValues(elts: seq<Expr>)
    ensures Values(RewriteElts(elts))
         == if ElidesZero(elts) then Values(elts[..1] + elts[2..]) else Values(elts)
  {
  }

  // ---------------------------------------------------------------------------
  // One literal: the range loop, step by step

  /** The state the loop works on: the slice's backing array, the slice's
      current length and the `fixed` flag. */
  datatype LoopState = LoopState(buf: seq<Expr>, len: nat, fixed: bool)

  /** `append(s[:i], s[i+1:]...)` on a slice of length `len` over the backing
      array `buf`: the tail moves down one slot in the same array and the last
      slot keeps its old element. */
  function CutAt(buf: seq<Expr>, len: nat, i: nat): (r: seq<Expr>)
    requires i < len <= |buf|
    ensures |r| == |buf|
  {
    buf[..i] + buf[i + 1..len] + buf[len - 1..]
  }

  /** The loop from iteration `i` on. `n` is the length of the slice when the
      range expression was evaluated, once, before the first iteration; each
      iteration reads its element from the backing array as it is then. Only
      iterations 0 and 1 write; every iteration that does not break sets the
      flag. The contract: the backing array keeps its size, the slice loses at
      most the one deleted element (and none from iteration 2 on), and the flag
      is never cleared and is set only by an iteration that does not break. */
  function RangeLoop(buf: seq<Expr>, len: nat, n: nat, i: nat, fixed: bool): (st: LoopState)
    requires n <= |buf| && len <= |buf| && i <= n
    requires i <= 1 ==> len == n
    ensures |st.buf| == |buf| && st.len <= len
    ensures if i >= 2 then st.len == len else len <= st.len + 1
    ensures fixed ==> st.fixed
    ensures st.fixed ==> fixed || (i < n && !buf[i].KeyValue?)
    decreases n - i
  {
    if i == n || buf[i].KeyValue? then LoopState(buf, len, fixed)
    else if i == 0 then RangeLoop(buf[0 := KV(IPKey, buf[0])], len, n, 1, true)
    else if i == 1 then
      if buf[1] == BasicLit(ZeroLit) then RangeLoop(CutAt(buf, len, 1), len - 1, n, 2, true)
      else RangeLoop(buf[1 := KV(PortKey, buf[1])], len, n, 2, true)
    else RangeLoop(buf, len, n, i + 1, true)
  }

  /** From iteration 2 on nothing is written: the loop at most sets the flag. */
  lemma {:induction false} LaterIterationsInert(buf: seq<Expr>, len: nat, n: nat, i: nat, fixed: bool)
    requires n <= |buf| && len <= |buf| && 2 <= i <= n
    ensures RangeLoop(buf, len, n, i, fixed)
         == LoopState(buf, len, fixed || (i < n && !buf[i].KeyValue?))
    decreases n - i
  {
    if i < n && !buf[i].KeyValue? {
      LaterIterationsInert(buf, len, n, i + 1, true);
    }
  }

  /** Running the whole loop over a slice of length `n` leaves the slice holding
      `RewriteElts` of its old elements and sets the flag exactly when the first
      element was positional. */
  lemma RangeLoopRewrites(buf: seq<Expr>, n: nat)
    requires n <= |buf|
    ensures var st := RangeLoop(buf, n, n, 0, false);
      st.len <= |st.buf| && st.buf[..st.len] == RewriteElts(buf[..n])
      && st.fixed == Positional(buf[..n])
  {
    var elts := buf[..n];
    if n > 0 && !buf[0].KeyValue? {
      var b1 := buf[0 := KV(IPKey, buf[0])];
      if n > 1 && !buf[1].KeyValue? {
        if buf[1] == BasicLit(ZeroLit) {
          var b2 := CutAt(b1, n, 1);
          LaterIterationsInert(b2, n - 1, n, 2, true);
          assert b2[..n - 1] == RewriteElts(elts);
        } else {
          var b2 := b1[1 := KV(PortKey, buf[1])];
          LaterIterationsInert(b2, n, n, 2, true);
          assert b2[..n] == RewriteElts(elts);
        }
      } else if n > 1 {
        assert b1[..n] == RewriteElts(elts);
      }
    }
  }

  // ---------------------------------------------------------------------------
  // One literal, in place

  /** A composite-literal node `T{...}`. Its element slice is the first `len`
      slots of the backing array `elts`; the fix never changes the type. */
  class CompositeLit {
    const typ: Option<Expr>
    var elts: array<Expr>
    var len: nat

    ghost predicate Valid()
      reads this
    {
      len <= elts.Length
    }

    /** The elements in the slice. */
    ghost function Elts(): seq<Expr>
      reads this, elts
      requires Valid()
    {
      elts[..len]
    }

    /** The node as a value. */
    ghost function Value(): Expr
      reads this, elts
      requires Valid()
    {
      Composite(typ, Elts())
    }

    constructor (typ: Option<Expr>, es: seq<Expr>)
      ensures Valid() && fresh(elts)
      ensures this.typ == typ && Elts() == es
    {
      this.typ := typ;
      elts := new Expr[|es|](k requires 0 <= k < |es| => es[k]);
      len := |es|;
    }

    /** `cl.Elts = append(cl.Elts[:i], cl.Elts[i+1:]...)`. */
    method Cut(i: nat)
      requires Valid() && i < len
      modifies this, elts
      ensures Valid() && elts == old(elts) && len == old(len) - 1
      ensures elts[..] == CutAt(old(elts[..]), old(len), i)
    {
      var j := i;
      while j < len - 1
        invariant elts == old(elts) && len == old(len)
        invariant i <= j <= len - 1
        invariant forall k :: 0 <= k < i ==> elts[k] == old(elts[k])
        invariant forall k :: i <= k < j ==> elts[k] == old(elts[k + 1])
        invariant forall k :: j <= k < elts.Length ==> elts[k] == old(elts[k])
      {
        elts[j] := elts[j + 1];
        j := j + 1;
      }
      assert elts[..] == CutAt(old(elts[..]), len, i);
      len := len - 1;
    }

    /** The body of the walk callback once the type matched: the range loop
        over the elements. `touched` is whether it set the fix's `fixed` flag. */
    method Rewrite() returns (touched: bool)
      requires Valid()
      modifies this, elts
      ensures Valid() && elts == old(elts)
      ensures Elts() == RewriteElts(old(Elts()))
      ensures touched == Positional(old(Elts()))
    {
      ghost var start := elts[..];
      var n := len;
      var i := 0;
      touched := false;
      while i < n
        invariant i <= n <= elts.Length && len <= elts.Length && elts == old(elts)
        invariant i <= 1 ==> len == n
        invariant RangeLoop(elts[..], len, n, i, touched) == RangeLoop(start, n, n, 0, false)
      {
        var e := elts[i];
        if e.KeyValue? {
          break;
        }
        ghost var before := elts[..];
        if i == 0 {
          elts[0] := KV(IPKey, e);
          assert elts[..] == before[0 := KV(IPKey, e)];
        } else if i == 1 {
          if e == BasicLit(ZeroLit) {
            Cut(1);
          } else {
            elts[1] := KV(PortKey, e);
            assert elts[..] == before[1 := KV(PortKey, e)];
          }
        }
        touched := true;
        i := i + 1;
      }
      assert RangeLoop(elts[..], len, n, i, touched) == LoopState(elts[..], len, touched);
      RangeLoopRewrites(start, n);
      assert start[..n] == old(Elts());
    }
  }

  // ---------------------------------------------------------------------------
  // The whole file

  /** What the walk callback does to one node it visits: a composite literal of
      a net address type gets its elements rewritten, every other node is left
      as it is. */
  function Visit(n: Expr): (r: Expr)
    ensures r != n <==> Fires(n)
    ensures !Fires(r)
  {
    if n.Composite? && IsNetAddrType(n.typ) then Composite(n.typ, RewriteElts(n.elts)) else n
  }

  /** The visited node makes the callback set `fixed`. */
  predicate Fires(n: Expr)
  {
    n.Composite? && IsNetAddrType(n.typ) && Positional(n.elts)
  }

  /** The nodes, in walk order, after the fix; nothing is walked when the file
      does not import "net". */
  function FixNodes(importsNet: bool, nodes: seq<Expr>): (r: seq<Expr>)
    ensures |r| == |nodes|
    ensures forall k :: 0 <= k < |nodes| ==> (r[k] != nodes[k] <==> importsNet && Fires(nodes[k]))
  {
    if !importsNet then nodes
    else seq(|nodes|, k requires 0 <= k < |nodes| => Visit(nodes[k]))
  }

  /** The flag the fix returns. */
  predicate Fixed(importsNet: bool, nodes: seq<Expr>)
    ensures Fixed(importsNet, nodes) ==> importsNet && nodes != []
  {
    importsNet && exists k :: 0 <= k < |nodes| && Fires(nodes[k])
  }

  lemma NoNetImportNoChange(nodes: seq<Expr>)
    ensures FixNodes(false, nodes) == nodes && !Fixed(false, nodes)
  {
  }

  /** Every node other than a literal of a net address type keeps its elements exactly. */
  lemma OnlyNetAddrLiteralsTouched(importsNet: bool, nodes: seq<Expr>, k: nat)
    requires k < |nodes|
    requires !(nodes[k].Composite? && IsNetAddrType(nodes[k].typ))
    ensures |FixNodes(importsNet, nodes)| == |nodes| && FixNodes(importsNet, nodes)[k] == nodes[k]
  {
  }

  /** The returned flag is honest: it is set exactly when some node changed. */
  lemma FixedIffChanged(importsNet: bool, nodes: seq<Expr>)
    ensures Fixed(importsNet, nodes) <==> FixNodes(importsNet, nodes) != nodes
  {
  }

  /** Running the fix on its own output reports no change and changes nothing. */
  lemma FixIdempotent(importsNet: bool, nodes: seq<Expr>)
    ensures FixNodes(importsNet, FixNodes(importsNet, nodes)) == FixNodes(importsNet, nodes)
    ensures !Fixed(importsNet, FixNodes(importsNet, nodes))
  {
  }

  /** The literal `&net.<name>{elts}` with its `&` dropped. */
  function NetLit(name: string, elts: seq<Expr>): (lit: Expr)
  {
    Composite(Some(Selector(Ident(NetPkg), Some(name))), elts)
  }

  /** The literals of the function `f` in the fix's test file, in walk order. */
  const TestBefore: seq<Expr> := [
    NetLit("IPAddr", [Ident("ip1")]),
    NetLit("UDPAddr", [Ident("ip2"), BasicLit("12345")]),
    NetLit("TCPAddr", [KV("IP", Ident("ip3")), KV("Port", BasicLit("54321"))]),
    NetLit("TCPAddr", [Ident("ip4"), BasicLit("0")]),
    NetLit("TCPAddr", [Ident("ip4"), Ident("p")]),
    NetLit("TCPAddr", [Ident("ip5")])]

  /** The same literals as the test file expects them after the fix. */
  const TestAfter: seq<Expr> := [
    NetLit("IPAddr", [KV("IP", Ident("ip1"))]),
    NetLit("UDPAddr", [KV("IP", Ident("ip2")), KV("Port", BasicLit("12345"))]),
    NetLit("TCPAddr", [KV("IP", Ident("ip3")), KV("Port", BasicLit("54321"))]),
    NetLit("TCPAddr", [KV("IP", Ident("ip4"))]),
    NetLit("TCPAddr", [KV("IP", Ident("ip4")), KV("Port", Ident("p"))]),
    NetLit("TCPAddr", [KV("IP", Ident("ip5"))])]

  lemma TestFileRewritten()
    ensures FixNodes(true, TestBefore) == TestAfter
    ensures Fixed(true, TestBefore)
    ensures FixNodes(true, TestAfter) == TestAfter && !Fixed(true, TestAfter)
  {
    var r := FixNodes(true, TestBefore);
    forall k | 0 <= k < |TestBefore| ensures r[k] == TestAfter[k] {
      assert r[k] == Visit(TestBefore[k]);
    }
    assert Fires(TestBefore[0]);
    FixIdempotent(true, TestBefore);
  }

  // ---------------------------------------------------------------------------
  // The whole file, in place

  ghost predicate AllValid(nodes: seq<CompositeLit>)
    reads nodes
  {
    forall k :: 0 <= k < |nodes| ==> nodes[k].Valid()
  }

  /** The walk reaches each node once, and no two literals share a backing array. */
  ghost predicate Separate(nodes: seq<CompositeLit>)
    reads nodes
  {
    forall j, k :: 0 <= j < k < |nodes| ==> nodes[j] != nodes[k] && nodes[j].elts != nodes[k].elts
  }

  /** The nodes, in walk order, as values. */
  ghost function Snapshot(nodes: seq<CompositeLit>): seq<Expr>
    reads nodes, set k | 0 <= k < |nodes| :: nodes[k].elts
    requires AllValid(nodes)
  {
    seq(|nodes|, k requires 0 <= k < |nodes| && nodes[k].Valid()
                   reads nodes, set j | 0 <= j < |nodes| :: nodes[j].elts
                   => nodes[k].Value())
  }

  /** The fix: when the file imports "net", visit the composite literals in
      walk order and rewrite those of a net address type in place; return
      whether anything was fixed. */
  method Fix(importsNet: bool, nodes: seq<CompositeLit>) returns (fixed: bool)
    requires AllValid(nodes) && Separate(nodes)
    modifies nodes, set k | 0 <= k < |nodes| :: nodes[k].elts
    ensures AllValid(nodes)
    ensures forall k :: 0 <= k < |nodes| ==> nodes[k].elts == old(nodes[k].elts)
    ensures Snapshot(nodes) == FixNodes(importsNet, old(Snapshot(nodes)))
    ensures fixed == Fixed(importsNet, old(Snapshot(nodes)))
  {
    if !importsNet {
      return false;
    }
    fixed := false;
    for k := 0 to |nodes|
      invariant AllValid(nodes)
      invariant forall j :: 0 <= j < |nodes| ==> nodes[j].elts == old(nodes[j].elts)
      invariant forall j :: 0 <= j < k ==> nodes[j].Value() == Visit(old(nodes[j].Value()))
      invariant forall j :: k <= j < |nodes| ==> nodes[j].Value() == old(nodes[j].Value())
      invariant fixed <==> exists j :: 0 <= j < k && Fires(old(nodes[j].Value()))
    {
      var cl := nodes[k];
      ghost var wasFixed := fixed;
      label Visiting:
      if IsNetAddrType(cl.typ) {
        var touched := cl.Rewrite();
        if touched {
          fixed := true;
        }
      }
      assert cl.Value() == Visit(old@Visiting(cl.Value()));
      assert fixed == (wasFixed || Fires(old@Visiting(cl.Value())));
      forall j | 0 <= j < |nodes| && j != k
        ensures nodes[j].Valid() && nodes[j].Value() == old@Visiting(nodes[j].Value())
      {
        assert nodes[j] != cl && nodes[j].elts != cl.elts;
      }
    }
    ghost var before := old(Snapshot(nodes));
    assert forall j :: 0 <= j < |nodes| ==> before[j] == old(nodes[j].Value());
    assert Snapshot(nodes) == FixNodes(true, before);
  }
}
