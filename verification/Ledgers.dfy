/** The cost ledger: what a run has spent, per node and in all, how it is charged, and
    how it is rebuilt from the run's journal. Money is whole micro-dollars. */
module Ledgers {

  datatype Usage = Usage(inTokens: int, outTokens: int, micros: int, estimated: bool)

  const ZERO := Usage(0, 0, 0, false)

  function Max(a: int, b: int): int { if a < b then b else a }

  function Add(t: Usage, u: Usage): Usage {
    Usage(t.inTokens + u.inTokens, t.outTokens + u.outTokens, t.micros + u.micros, t.estimated || u.estimated)
  }

  /** t with u's figures taken from it. */
  function Less(t: Usage, u: Usage): Usage {
    Usage(t.inTokens - u.inTokens, t.outTokens - u.outTokens, t.micros - u.micros, t.estimated)
  }

  /** t with each figure raised to floor's where floor's is larger. */
  function AtLeast(t: Usage, floor: Usage): Usage {
    Usage(Max(t.inTokens, floor.inTokens), Max(t.outTokens, floor.outTokens), Max(t.micros, floor.micros),
          t.estimated || floor.estimated)
  }

  /** u is no more than v in any figure, and not estimated unless v is. */
  predicate Within(u: Usage, v: Usage) {
    u.inTokens <= v.inTokens && u.outTokens <= v.outTokens && u.micros <= v.micros && (u.estimated ==> v.estimated)
  }

  predicate NonNegative(u: Usage) {
    0 <= u.inTokens && 0 <= u.outTokens && 0 <= u.micros
  }

  /** A cost as the journal keeps it; sum: it is many steps' worth, not one call's. */
  datatype Charge = Charge(node: string, usage: Usage, sum: bool)

  // ----- the ledger as a value

  datatype Book = Book(nodes: map<string, Usage>, order: seq<string>, total: Usage, largest: Usage)

  const EMPTY := Book(map[], [], ZERO, ZERO)

  function Of(b: Book, node: string): Usage {
    if node in b.nodes then b.nodes[node] else ZERO
  }

  function Posted(b: Book, e: Charge): Book {
    Book(b.nodes[e.node := Add(Of(b, e.node), e.usage)],
         if e.node in b.nodes then b.order else b.order + [e.node],
         Add(b.total, e.usage),
         if e.sum then b.largest else AtLeast(b.largest, e.usage))
  }

  /** The ledger that recorded exactly these charges, in this order. */
  function Replay(entries: seq<Charge>): Book {
    if entries == [] then EMPTY else Posted(Replay(entries[..|entries| - 1]), entries[|entries| - 1])
  }

  function Rebuilt(entries: seq<Charge>, floor: Usage): Book {
    var b := Replay(entries);
    b.(total := AtLeast(b.total, floor))
  }

  /** The part of a running total that seen does not hold yet. */
  function Increase(cumulative: Usage, seen: Usage): Usage {
    Usage(Max(0, cumulative.inTokens - seen.inTokens), Max(0, cumulative.outTokens - seen.outTokens),
          Max(0, cumulative.micros - seen.micros), cumulative.estimated)
  }

  function Dropping(order: seq<string>, node: string): (r: seq<string>)
    ensures forall x :: x in r <==> x in order && x != node
  {
    if order == [] then []
    else if order[0] == node then Dropping(order[1..], node)
    else [order[0]] + Dropping(order[1..], node)
  }

  function WithoutNode(b: Book, node: string): Book {
    var t := Of(b, node);
    Book(map n | n in b.nodes && n != node :: b.nodes[n], Dropping(b.order, node), Less(b.total, t), b.largest)
  }

  lemma SetTwice(nodes: map<string, Usage>, node: string, t: Usage, u: Usage)
    ensures nodes[node := t][node := u] == nodes[node := u]
  {
  }

  /** out is b with node taken out, as far as the names seen. */
  ghost predicate TakenOut(out: Book, b: Book, seen: seq<string>, node: string) {
    out.order == Dropping(seen, node) && out.largest == b.largest
    && (forall n :: n in out.nodes <==> n in seen && n != node)
    && (forall n :: n in out.nodes ==> out.nodes[n] == Of(b, n))
    && out.total == if node in seen then WithoutNode(b, node).total else b.total
  }

  /** out once name has been dealt with. */
  function TakeOne(out: Book, b: Book, name: string, node: string): Book {
    if name == node then out.(total := WithoutNode(b, node).total)
    else out.(nodes := out.nodes[name := Of(b, name)], order := out.order + [name])
  }

  lemma TakeOutOne(out: Book, b: Book, seen: seq<string>, name: string, node: string)
    requires TakenOut(out, b, seen, node) && name !in seen
    ensures TakenOut(TakeOne(out, b, name, node), b, seen + [name], node) && (name == node ==> out.total == b.total)
  {
    DroppingLast(seen, name, node);
    TakeOutNames(out, b, seen, name, node);
  }

  lemma TakeOutNames(out: Book, b: Book, seen: seq<string>, name: string, node: string)
    requires name !in seen && forall n :: n in out.nodes <==> n in seen && n != node
    requires forall n :: n in out.nodes ==> out.nodes[n] == Of(b, n)
    ensures var nodes := if name == node then out.nodes else out.nodes[name := Of(b, name)];
            (forall n :: n in nodes <==> n in seen + [name] && n != node)
            && forall n :: n in nodes ==> nodes[n] == Of(b, n)
  {
  }

  lemma NextIsNew(b: Book, i: nat)
    requires Listed(b) && i < |b.order|
    ensures b.order[i] !in b.order[..i] && b.order[i] in b.nodes
    ensures b.order[..i + 1] == b.order[..i] + [b.order[i]]
  {
  }

  lemma TakenOutOfAll(out: Book, b: Book, node: string)
    requires Listed(b) && TakenOut(out, b, b.order, node)
    ensures out == WithoutNode(b, node)
  {
    assert out.nodes == WithoutNode(b, node).nodes;
  }

  /** A copy of b made as far as the first i names. */
  function Partly(b: Book, i: nat, node: string): Book
    requires i <= |b.order|
  {
    if i == 0 then Book(map[], [], b.total, b.largest) else TakeOne(Partly(b, i - 1, node), b, b.order[i - 1], node)
  }

  lemma {:induction false} PartlyIsTakenOut(b: Book, i: nat, node: string)
    requires Listed(b) && i <= |b.order|
    ensures TakenOut(Partly(b, i, node), b, b.order[..i], node)
  {
    if i > 0 {
      PartlyIsTakenOut(b, i - 1, node);
      NextIsNew(b, i - 1);
      TakeOutOne(Partly(b, i - 1, node), b, b.order[..i - 1], b.order[i - 1], node);
    }
  }

  lemma PartlyKeepsTotal(b: Book, i: nat, node: string)
    requires Listed(b) && i < |b.order|
    ensures b.order[i] in b.nodes && (b.order[i] == node ==> Partly(b, i, node).total == b.total)
  {
    PartlyIsTakenOut(b, i, node);
    NextIsNew(b, i);
  }

  lemma PartlyAll(b: Book, node: string)
    requires Listed(b)
    ensures Partly(b, |b.order|, node) == WithoutNode(b, node)
  {
    PartlyIsTakenOut(b, |b.order|, node);
    assert b.order[..|b.order|] == b.order;
    TakenOutOfAll(Partly(b, |b.order|, node), b, node);
  }

  // ----- the ledger as the program keeps it

  class Ledger {
    var nodes: map<string, Usage>
    var order: seq<string>
    var total: Usage
    var largest: Usage

    ghost function Value(): Book
      reads this
    {
      Book(nodes, order, total, largest)
    }

    constructor ()
      ensures Value() == EMPTY
    {
      nodes, order, total, largest := map[], [], ZERO, ZERO;
    }

    /** node's running total, made in first-seen order. */
    method Entry(node: string) returns (t: Usage)
      modifies this`nodes, this`order
      ensures t == Of(old(Value()), node) && nodes == old(nodes)[node := t]
      ensures order == if node in old(nodes) then old(order) else old(order) + [node]
    {
      if node !in nodes {
        nodes := nodes[node := ZERO];
        order := order + [node];
      }
      t := nodes[node];
    }

    method Record(node: string, u: Usage)
      modifies this
      ensures Value() == Posted(old(Value()), Charge(node, u, false))
    {
      AddToNode(node, u);
      total := Add(total, u);
      var call := Add(ZERO, u);
      largest := AtLeast(largest, call);
    }

    method RecordSum(node: string, u: Usage)
      modifies this
      ensures Value() == Posted(old(Value()), Charge(node, u, true))
    {
      AddToNode(node, u);
      total := Add(total, u);
    }

    /** node's running total and u, in first-seen order. */
    method AddToNode(node: string, u: Usage)
      modifies this`nodes, this`order
      ensures nodes == old(nodes)[node := Add(Of(old(Value()), node), u)]
      ensures order == if node in old(nodes) then old(order) else old(order) + [node]
    {
      var t := Entry(node);
      SetTwice(old(nodes), node, t, Add(t, u));
      nodes := nodes[node := Add(t, u)];
    }

    method Unrecorded(node: string, cumulative: Usage) returns (u: Usage)
      ensures u == Increase(cumulative, Of(Value(), node))
    {
      var seen := ZERO;
      if node in nodes {
        seen := nodes[node];
      }
      u := Usage(Max(0, cumulative.inTokens - seen.inTokens), Max(0, cumulative.outTokens - seen.outTokens),
                 Max(0, cumulative.micros - seen.micros), cumulative.estimated);
    }

    method TakeFromTotal(t: Usage)
      modifies this`total
      ensures Value() == old(Value()).(total := Less(old(total), t))
    {
      total := total.(inTokens := total.inTokens - t.inTokens, outTokens := total.outTokens - t.outTokens,
                      micros := total.micros - t.micros);
    }

    method CopyEntry(name: string, t: Usage)
      modifies this`nodes, this`order
      ensures Value() == old(Value()).(nodes := old(nodes)[name := t], order := old(order) + [name])
    {
      nodes := nodes[name := t];
      order := order + [name];
    }

    /** One entry of b into this copy of it, or off its total when it is node's. */
    method CopyUnless(node: string, name: string, t: Usage, ghost b: Book)
      requires t == Of(b, name) && (name == node ==> total == b.total)
      modifies this
      ensures Value() == TakeOne(old(Value()), b, name, node)
    {
      if name == node {
        TakeFromTotal(t);
        return;
      }
      CopyEntry(name, t);
    }

    /** A copy with everything recorded under node taken out; this is unchanged. */
    method Without(node: string) returns (out: Ledger)
      requires Listed(Value())
      ensures fresh(out) && out.Value() == WithoutNode(Value(), node)
    {
      out := new Ledger();
      out.total, out.largest := total, largest;
      ghost var b := Value();
      for i := 0 to |order|
        invariant fresh(out) && out.Value() == Partly(b, i, node)
      {
        PartlyKeepsTotal(b, i, node);
        var name := order[i];
        out.CopyUnless(node, name, nodes[name], b);
      }
      PartlyAll(b, node);
    }

    /** The ledger a resumed run goes on with. */
    static method Rebuild(entries: seq<Charge>, floor: Usage) returns (l: Ledger)
      ensures fresh(l) && l.Value() == Rebuilt(entries, floor)
    {
      l := new Ledger();
      for i := 0 to |entries|
        invariant fresh(l) && l.Value() == Replay(entries[..i])
      {
        var e := entries[i];
        assert entries[..i + 1][..i] == entries[..i];
        if e.sum {
          l.RecordSum(e.node, e.usage);
          continue;
        }
        l.Record(e.node, e.usage);
      }
      assert entries[..|entries|] == entries;
      l.total := AtLeast(l.total, floor);
    }
  }

  lemma {:induction false} DroppingLast(order: seq<string>, last: string, node: string)
    ensures Dropping(order + [last], node) == Dropping(order, node) + if last == node then [] else [last]
    decreases |order|
  {
    if order == [] {
      assert order + [last] == [last];
    } else {
      assert (order + [last])[0] == order[0] && (order + [last])[1..] == order[1..] + [last];
      DroppingLast(order[1..], last, node);
    }
  }

  // ----- what every charge keeps

  function SumOver(nodes: map<string, Usage>, order: seq<string>): Usage
    requires forall n :: n in order ==> n in nodes
  {
    if order == [] then ZERO else Add(SumOver(nodes, order[..|order| - 1]), nodes[order[|order| - 1]])
  }

  ghost predicate NoRepeats(order: seq<string>) {
    forall i, j :: 0 <= i < j < |order| ==> order[i] != order[j]
  }

  /** The order lists every node once. */
  ghost predicate Listed(b: Book) {
    NoRepeats(b.order) && forall n :: n in b.order <==> n in b.nodes
  }

  /** And the total is the sum over the nodes. */
  ghost predicate Consistent(b: Book) {
    Listed(b) && b.total == SumOver(b.nodes, b.order)
  }

  lemma {:induction false} SumIgnores(nodes: map<string, Usage>, order: seq<string>, node: string, t: Usage)
    requires node !in order && forall n :: n in order ==> n in nodes
    ensures SumOver(nodes[node := t], order) == SumOver(nodes, order)
  {
    if order != [] {
      SumIgnores(nodes, order[..|order| - 1], node, t);
    }
  }

  lemma {:induction false} SumRaised(nodes: map<string, Usage>, order: seq<string>, node: string, u: Usage)
    requires NoRepeats(order) && node in order && forall n :: n in order ==> n in nodes
    ensures SumOver(nodes[node := Add(nodes[node], u)], order) == Add(SumOver(nodes, order), u)
  {
    var front, last := order[..|order| - 1], order[|order| - 1];
    var raised := nodes[node := Add(nodes[node], u)];
    assert SumOver(raised, order) == Add(SumOver(raised, front), raised[last]);
    if last == node {
      assert node !in front;
      SumIgnores(nodes, front, node, Add(nodes[node], u));
    } else {
      assert node in front by { assert order == front + [last]; }
      SumRaised(nodes, front, node, u);
    }
  }

  lemma PostedIsListed(b: Book, e: Charge)
    requires Listed(b)
    ensures Listed(Posted(b, e))
  {
    var c := Posted(b, e);
    if e.node !in b.nodes {
      assert e.node !in b.order;
      forall i, j | 0 <= i < j < |c.order| ensures c.order[i] != c.order[j] {
        assert c.order[i] in b.order;
      }
    }
  }

  lemma PostedSumOfOld(b: Book, e: Charge)
    requires Listed(b) && e.node in b.nodes
    ensures var c := Posted(b, e); Listed(c) ==> SumOver(c.nodes, c.order) == Add(SumOver(b.nodes, b.order), e.usage)
  {
    SumRaised(b.nodes, b.order, e.node, e.usage);
  }

  lemma PostedSumOfNew(b: Book, e: Charge)
    requires Listed(b) && e.node !in b.nodes
    ensures var c := Posted(b, e); Listed(c) ==> SumOver(c.nodes, c.order) == Add(SumOver(b.nodes, b.order), e.usage)
  {
    var nodes := b.nodes[e.node := e.usage];
    assert Posted(b, e).nodes == nodes;
    SumIgnores(b.nodes, b.order, e.node, e.usage);
    SumOfAppended(nodes, b.order, e.node);
  }

  lemma SumOfAppended(nodes: map<string, Usage>, order: seq<string>, last: string)
    requires last in nodes && forall n :: n in order ==> n in nodes
    ensures SumOver(nodes, order + [last]) == Add(SumOver(nodes, order), nodes[last])
  {
    assert (order + [last])[..|order|] == order;
  }

  /** Charging keeps the ledger consistent. */
  lemma PostedIsConsistent(b: Book, e: Charge)
    requires Consistent(b)
    ensures Consistent(Posted(b, e))
  {
    PostedIsListed(b, e);
    if e.node in b.nodes {
      PostedSumOfOld(b, e);
    } else {
      PostedSumOfNew(b, e);
    }
  }

  lemma {:induction false} ReplayIsConsistent(entries: seq<Charge>)
    ensures Consistent(Replay(entries))
  {
    if entries != [] {
      ReplayIsConsistent(entries[..|entries| - 1]);
      PostedIsConsistent(Replay(entries[..|entries| - 1]), entries[|entries| - 1]);
    }
  }

  /** s is t and u together, estimates aside. */
  predicate IsSum(s: Usage, t: Usage, u: Usage) {
    s.inTokens == t.inTokens + u.inTokens && s.outTokens == t.outTokens + u.outTokens && s.micros == t.micros + u.micros
  }

  lemma {:induction false} SumWithout(nodes: map<string, Usage>, rest: map<string, Usage>, order: seq<string>,
                                      node: string)
    requires NoRepeats(order) && forall n :: n in order ==> n in nodes
    requires forall n :: n in order && n != node ==> n in rest && rest[n] == nodes[n]
    ensures IsSum(SumOver(nodes, order), SumOver(rest, Dropping(order, node)),
                  if node in order then nodes[node] else ZERO)
    decreases |order|
  {
    if order != [] {
      var front, last := order[..|order| - 1], order[|order| - 1];
      assert order == front + [last] && last !in front;
      DroppingLast(front, last, node);
      SumWithout(nodes, rest, front, node);
      SumOfLast(rest, Dropping(front, node), last, node);
    }
  }

  lemma SumOfLast(rest: map<string, Usage>, kept: seq<string>, last: string, node: string)
    requires (forall n :: n in kept ==> n in rest) && (last != node ==> last in rest)
    ensures last != node ==> SumOver(rest, kept + [last]) == Add(SumOver(rest, kept), rest[last])
    ensures kept + (if last == node then [] else [last]) == if last == node then kept else kept + [last]
  {
    assert (kept + [last])[..|kept|] == kept;
  }

  /** A rebuilt ledger is the replay of its entries but for its total, which is the least
      that is no less than the replay's or the floor in any figure, and estimated if either
      is: where the snapshot is ahead, it is raised. */
  lemma RebuiltIsRaisedToFloor(entries: seq<Charge>, floor: Usage, v: Usage)
    ensures var b, r := Replay(entries), Rebuilt(entries, floor);
            && r.nodes == b.nodes && r.order == b.order && r.largest == b.largest
            && Within(b.total, r.total) && Within(floor, r.total)
            && (Within(b.total, v) && Within(floor, v) ==> Within(r.total, v))
  {
  }

  /** A rebuilt ledger lists every node once, wherever its floor is. */
  lemma RebuiltIsListed(entries: seq<Charge>, floor: Usage)
    ensures Listed(Rebuilt(entries, floor))
  {
    ReplayIsConsistent(entries);
  }

  /** Taking a node out takes its record from the total and leaves every other node; and
      where the total was the sum over the nodes it is the sum over the others. */
  lemma WithoutIsTheOthers(b: Book, node: string)
    requires Listed(b)
    ensures var w := WithoutNode(b, node);
            IsSum(b.total, w.total, Of(b, node)) && (Consistent(b) ==> IsSum(w.total, SumOver(w.nodes, w.order), ZERO))
    ensures forall n :: Of(WithoutNode(b, node), n) == if n == node then ZERO else Of(b, n)
    ensures var w := WithoutNode(b, node);
            w.largest == b.largest && w.total.estimated == b.total.estimated
            && if node in b.order then exists i :: IsWithoutAt(w.order, b.order, i, node) else w.order == b.order
  {
    var w := WithoutNode(b, node);
    SumWithout(b.nodes, w.nodes, b.order, node);
    if node in b.order {
      var i :| 0 <= i < |b.order| && b.order[i] == node;
      DroppingIsWithout(b.order, i, node);
    } else {
      DroppingNothing(b.order, node);
    }
  }

  /** s is order without the name at i, the others as they were. */
  ghost predicate IsWithoutAt(s: seq<string>, order: seq<string>, i: int, node: string) {
    0 <= i < |order| && order[i] == node && s == order[..i] + order[i + 1..]
  }

  lemma {:induction false} DroppingNothing(order: seq<string>, node: string)
    requires node !in order
    ensures Dropping(order, node) == order
  {
    if order != [] {
      DroppingNothing(order[1..], node);
    }
  }

  lemma {:induction false} DroppingIsWithout(order: seq<string>, i: nat, node: string)
    requires NoRepeats(order) && i < |order| && order[i] == node
    ensures IsWithoutAt(Dropping(order, node), order, i, node)
  {
    if i == 0 {
      DroppingNothing(order[1..], node);
    } else {
      assert order[0] != node;
      DroppingIsWithout(order[1..], i - 1, node);
      assert order == [order[0]] + order[1..];
    }
  }
}
