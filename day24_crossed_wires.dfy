// Day 24, part 1: gates wired into a circuit, evaluated with a work queue
// that sends a gate whose inputs are not yet known to the back.

module CrossedWires {
  import opened LongBits

  datatype OperationType = AND | OR | XOR

  /** One gate: `lhs type rhs -> result`, each wire name three characters. */
  datatype Operation = Operation(kind: OperationType, lhs: string, rhs: string, result: string)

  /** The size of the variable table, one entry per three-letter name. */
  const TABLE_SIZE := 26 * 26 * 26

  // ---- Wire names ----

  predicate Letters(w: string) {
    |w| == 3 && forall t :: 0 <= t < 3 ==> 'a' <= w[t] <= 'z'
  }

  predicate Numbered(w: string) {
    |w| == 3 && '0' <= w[1] <= '9' && '0' <= w[2] <= '9'
  }

  /** `atoi(name + 1)` on a numbered name. */
  function Atoi(w: string): (n: int)
    requires Numbered(w)
    ensures 0 <= n < 100
  {
    (w[1] as int - '0' as int) * 10 + (w[2] as int - '0' as int)
  }

  /** `INDEX_BY_STR`: the position of a three-letter name in the table. */
  function IndexByStr(w: string): (i: int)
    requires Letters(w)
    ensures 0 <= i < TABLE_SIZE
  {
    (w[0] as int - 'a' as int) * 26 * 26 + (w[1] as int - 'a' as int) * 26 + (w[2] as int - 'a' as int)
  }

  /** Distinct names have distinct table entries. */
  lemma IndexInjective(v: string, w: string)
    requires Letters(v) && Letters(w)
    ensures IndexByStr(v) == IndexByStr(w) <==> v == w
  {
    if IndexByStr(v) == IndexByStr(w) {
      assert v[0] == w[0];
      assert v[1] == w[1];
      assert v[2] == w[2];
      assert v == w;
    }
  }

  /** A bit of the input `x` or `y`. */
  predicate IsInput(w: string) {
    |w| == 3 && (w[0] == 'x' || w[0] == 'y') && Numbered(w) && Atoi(w) < 64
  }

  /** A bit of the output `z`. */
  predicate IsOutput(w: string) {
    |w| == 3 && w[0] == 'z' && Numbered(w) && Atoi(w) < 64
  }

  /** A wire kept in the variable table. */
  predicate Stored(w: string) {
    Letters(w) && w[0] != 'x' && w[0] != 'y' && w[0] != 'z'
  }

  /** An operand is read from `x`, from `y` or from the table. */
  predicate ValidOperand(w: string) {
    IsInput(w) || (Letters(w) && w[0] != 'x' && w[0] != 'y')
  }

  /** A result goes to a bit of `z` or to the table. */
  predicate ValidResult(w: string) {
    IsOutput(w) || Stored(w)
  }

  // ---- Bits ----

  /** The shift `atoi(name + 1)` of a numbered bit wire. */
  function Shift(w: string): bv6
    requires Numbered(w) && Atoi(w) < 64
  {
    Atoi(w) as bv6
  }

  /** `(long long)result` for a bit `result`. */
  function Long(r: int): (b: bv64)
    requires r == 0 || r == 1
    ensures b == 0 || b == 1
  {
    if r == 1 then 1 else 0
  }

  /** The value of an input wire. */
  function InputBit(x: bv64, y: bv64, w: string): int
    requires IsInput(w)
  {
    if BitSet(if w[0] == 'x' then x else y, Shift(w)) then 1 else 0
  }

  /** A gate on two bits, each 0 or 1. */
  function Apply(kind: OperationType, a: int, b: int): (r: int)
    requires (a == 0 || a == 1) && (b == 0 || b == 1)
    ensures r == 0 || r == 1
    ensures kind == AND ==> (r == 1 <==> a == 1 && b == 1)
    ensures kind == OR ==> (r == 0 <==> a == 0 && b == 0)
    ensures kind == XOR ==> r == (a + b) % 2
  {
    match kind
    case AND => if a != 0 && b != 0 then 1 else 0
    case OR => if a != 0 || b != 0 then 1 else 0
    case XOR => if a != b then 1 else 0
  }

  // ---- The circuit ----

  /** The first gate whose result is `w`, or `|ops|` for none. */
  function Driver(ops: seq<Operation>, w: string): (j: int)
    ensures 0 <= j <= |ops|
    ensures j < |ops| ==> ops[j].result == w
    ensures forall i :: 0 <= i < j ==> ops[i].result != w
  {
    DriverFrom(ops, w, 0)
  }

  /** The first gate at or after `from` whose result is `w`. */
  function DriverFrom(ops: seq<Operation>, w: string, from: nat): (j: int)
    requires from <= |ops|
    ensures from <= j <= |ops|
    ensures j < |ops| ==> ops[j].result == w
    ensures forall i :: from <= i < j ==> ops[i].result != w
    decreases |ops| - from
  {
    if from == |ops| then |ops|
    else if ops[from].result == w then from
    else DriverFrom(ops, w, from + 1)
  }

  /** Operand `w` of gate `i` is an input or the result of a gate of lower
    * rank. */
  predicate Driven(ops: seq<Operation>, rank: seq<nat>, i: int, w: string)
    requires |rank| == |ops| && 0 <= i < |ops|
  {
    IsInput(w) || (Driver(ops, w) < |ops| && rank[Driver(ops, w)] < rank[i])
  }

  /** A circuit the queue can evaluate: well-formed names, one gate per
    * result wire (each gate is the first, so the only, to drive its
    * result), and a rank on the gates that every gate's table operands
    * lie below, which rules out cycles and undriven wires. */
  predicate Circuit(ops: seq<Operation>, rank: seq<nat>) {
    |rank| == |ops| &&
    (forall i :: 0 <= i < |ops| ==>
      ValidOperand(ops[i].lhs) && ValidOperand(ops[i].rhs) && ValidResult(ops[i].result)) &&
    (forall i {:trigger Driver(ops, ops[i].result)} :: 0 <= i < |ops| ==> Driver(ops, ops[i].result) == i) &&
    (forall i {:trigger Driven(ops, rank, i, ops[i].lhs)} :: 0 <= i < |ops| ==> Driven(ops, rank, i, ops[i].lhs)) &&
    (forall i {:trigger Driven(ops, rank, i, ops[i].rhs)} :: 0 <= i < |ops| ==> Driven(ops, rank, i, ops[i].rhs))
  }

  /** The value gate `i` computes. */
  function OpValue(ops: seq<Operation>, rank: seq<nat>, x: bv64, y: bv64, i: int): (v: int)
    requires Circuit(ops, rank) && 0 <= i < |ops|
    ensures v == 0 || v == 1
    decreases rank[i], 1
  {
    Apply(ops[i].kind, WireValue(ops, rank, x, y, i, ops[i].lhs), WireValue(ops, rank, x, y, i, ops[i].rhs))
  }

  /** The value on operand `w` of gate `i`. */
  function WireValue(ops: seq<Operation>, rank: seq<nat>, x: bv64, y: bv64, i: int, w: string): (v: int)
    requires Circuit(ops, rank) && 0 <= i < |ops| && Driven(ops, rank, i, w)
    ensures v == 0 || v == 1
    decreases rank[i], 0
  {
    if IsInput(w) then InputBit(x, y, w) else OpValue(ops, rank, x, y, Driver(ops, w))
  }

  /** The bits of `z` the gates in `done` set. */
  ghost function Ones(ops: seq<Operation>, rank: seq<nat>, x: bv64, y: bv64, done: set<int>): iset<bv6>
    requires Circuit(ops, rank)
  {
    iset i | i in done && 0 <= i < |ops| && IsOutput(ops[i].result) && OpValue(ops, rank, x, y, i) == 1 ::
      Shift(ops[i].result)
  }

  ghost predicate ZBits(z: bv64, ops: seq<Operation>, rank: seq<nat>, x: bv64, y: bv64, done: set<int>)
    requires Circuit(ops, rank)
  {
    Bits(z) == Ones(ops, rank, x, y, done)
  }

  /** Each table wire's entry is its value once its gate is done, and -1
    * (not set yet) before. */
  ghost predicate Table(t: seq<int>, ops: seq<Operation>, rank: seq<nat>, x: bv64, y: bv64, done: set<int>)
    requires Circuit(ops, rank)
  {
    |t| == TABLE_SIZE &&
    forall j :: 0 <= j < |ops| && Stored(ops[j].result) ==>
      t[IndexByStr(ops[j].result)] == if j in done then OpValue(ops, rank, x, y, j) else -1
  }

  // ---- The work queue ----

  class OperationListNode {
    var next: OperationListNode?
    const op: Operation

    constructor (op: Operation)
      ensures this.op == op && next == null
    {
      this.op := op;
      next := null;
    }
  }

  /** `q` is the list from `head` to `tail`: linked by `next` and ending in
    * null. (No node is there twice: `Queue` ties each node to a different
    * gate, see `Separate`.) */
  ghost predicate Chain(q: seq<OperationListNode>, head: OperationListNode?, tail: OperationListNode?)
    reads q
  {
    (|q| == 0 ==> head == null) &&
    (|q| > 0 ==> head == q[0] && tail == q[|q| - 1] && q[|q| - 1].next == null) &&
    (forall t {:trigger q[t].next} :: 0 <= t < |q| - 1 ==> q[t].next == q[t + 1])
  }

  /** The head and the tail of `q` are nodes of their own: the two links
    * `Requeue` changes are no other node's. */
  ghost predicate Ends(q: seq<OperationListNode>) {
    |q| > 0 &&
    (forall t :: 0 < t < |q| ==> q[t] != q[0]) &&
    (forall t :: 0 <= t < |q| - 1 ==> q[t] != q[|q| - 1])
  }

  /** `to_linked_list`: a fresh node per operation, in order; no nodes and
    * a null tail for an empty array. */
  method ToLinkedList(arr: seq<Operation>) returns (head: OperationListNode?, tail: OperationListNode?, ghost nodes: seq<OperationListNode>)
    ensures Chain(nodes, head, tail) && |nodes| == |arr|
    ensures forall t :: 0 <= t < |arr| ==> nodes[t].op == arr[t] && fresh(nodes[t])
    ensures |arr| == 0 ==> head == null && tail == null
  {
    if |arr| == 0 {
      return null, null, [];
    }
    head := new OperationListNode(arr[0]);
    var node := head;
    nodes := [head];
    for i := 1 to |arr|
      invariant |nodes| == i && Chain(nodes, head, node)
      invariant forall t :: 0 <= t < i ==> nodes[t].op == arr[t] && fresh(nodes[t])
    {
      var n := new OperationListNode(arr[i]);
      node.next := n;
      node := n;
      nodes := nodes + [n];
    }
    tail := node;
  }

  /** `nodes` holds a node per gate; the gates still waiting are the nodes
    * of `q`, `qi` giving each one's position in the input; the others are
    * `done`. */
  ghost predicate Queue(ops: seq<Operation>, nodes: seq<OperationListNode>, q: seq<OperationListNode>, qi: seq<int>, done: set<int>) {
    |nodes| == |ops| && (forall k :: 0 <= k < |nodes| ==> nodes[k].op == ops[k]) &&
    |q| == |qi| &&
    (forall t :: 0 <= t < |qi| ==> 0 <= qi[t] < |ops| && q[t] == nodes[qi[t]]) &&
    (forall s, t :: 0 <= s < t < |qi| ==> qi[s] != qi[t]) &&
    (forall i :: i in done ==> 0 <= i < |ops|) &&
    (forall i :: 0 <= i < |ops| ==> (i in done <==> i !in qi))
  }

  /** An operand whose value is known: an input, or a table wire whose
    * gate is done. */
  predicate Known(ops: seq<Operation>, done: set<int>, w: string) {
    IsInput(w) || Driver(ops, w) in done
  }

  predicate Ready(ops: seq<Operation>, done: set<int>, i: int)
    requires 0 <= i < |ops|
  {
    Known(ops, done, ops[i].lhs) && Known(ops, done, ops[i].rhs)
  }

  /** How many gates the queue sends back before it evaluates one. */
  function FirstReady(ops: seq<Operation>, done: set<int>, qi: seq<int>): (r: int)
    requires forall t :: 0 <= t < |qi| ==> 0 <= qi[t] < |ops|
    ensures 0 <= r <= |qi|
    ensures r < |qi| ==> Ready(ops, done, qi[r])
    ensures forall t :: 0 <= t < r ==> !Ready(ops, done, qi[t])
  {
    if |qi| == 0 then 0
    else if Ready(ops, done, qi[0]) then 0
    else 1 + FirstReady(ops, done, qi[1..])
  }

  lemma {:induction false} FirstReadyAppend(ops: seq<Operation>, done: set<int>, qi: seq<int>, i: int)
    requires forall t :: 0 <= t < |qi| ==> 0 <= qi[t] < |ops|
    requires 0 <= i < |ops| && FirstReady(ops, done, qi) < |qi|
    ensures FirstReady(ops, done, qi + [i]) == FirstReady(ops, done, qi)
    decreases |qi|
  {
    assert (qi + [i])[0] == qi[0];
    if !Ready(ops, done, qi[0]) {
      assert (qi + [i])[1..] == qi[1..] + [i];
      FirstReadyAppend(ops, done, qi[1..], i);
    }
  }

  /** Sending the head to the back brings the first ready gate one place
    * nearer, which is why the queue ends. */
  lemma FirstReadyRotate(ops: seq<Operation>, done: set<int>, qi: seq<int>)
    requires forall t :: 0 <= t < |qi| ==> 0 <= qi[t] < |ops|
    requires 0 < FirstReady(ops, done, qi) < |qi|
    ensures FirstReady(ops, done, qi[1..] + [qi[0]]) == FirstReady(ops, done, qi) - 1
  {
    FirstReadyAppend(ops, done, qi[1..], qi[0]);
  }

  /** A position in `qi` of least rank. */
  lemma {:induction false} LeastRank(rank: seq<nat>, qi: seq<int>) returns (t: int)
    requires |qi| > 0 && forall s :: 0 <= s < |qi| ==> 0 <= qi[s] < |rank|
    ensures 0 <= t < |qi| && forall s :: 0 <= s < |qi| ==> rank[qi[t]] <= rank[qi[s]]
    decreases |qi|
  {
    if |qi| == 1 {
      t := 0;
    } else {
      var u := LeastRank(rank, qi[1..]);
      t := if rank[qi[0]] <= rank[qi[u + 1]] then 0 else u + 1;
      assert forall s :: 1 <= s < |qi| ==> qi[s] == qi[1..][s - 1];
    }
  }

  /** In a circuit some waiting gate is always ready: the one of least rank
    * has its operands driven by gates that are done. */
  lemma SomeReady(ops: seq<Operation>, rank: seq<nat>, nodes: seq<OperationListNode>, q: seq<OperationListNode>, qi: seq<int>, done: set<int>)
    requires Circuit(ops, rank) && Queue(ops, nodes, q, qi, done) && |qi| > 0
    ensures FirstReady(ops, done, qi) < |qi|
  {
    var t := LeastRank(rank, qi);
    var i := qi[t];
    KnownBelow(ops, rank, qi, done, i, t, ops[i].lhs);
    KnownBelow(ops, rank, qi, done, i, t, ops[i].rhs);
    assert Ready(ops, done, i);
  }

  lemma KnownBelow(ops: seq<Operation>, rank: seq<nat>, qi: seq<int>, done: set<int>, i: int, t: int, w: string)
    requires Circuit(ops, rank) && 0 <= i < |ops| && Driven(ops, rank, i, w)
    requires forall s :: 0 <= s < |qi| ==> 0 <= qi[s] < |ops|
    requires forall j :: 0 <= j < |ops| ==> (j in done <==> j !in qi)
    requires 0 <= t < |qi| && qi[t] == i && forall s :: 0 <= s < |qi| ==> rank[i] <= rank[qi[s]]
    ensures Known(ops, done, w)
  {
    if !IsInput(w) {
      var j := Driver(ops, w);
      assert forall s :: 0 <= s < |qi| ==> qi[s] != j;
    }
  }

  /** An operand as the solver reads it: a bit of `x` or `y`, or the table
    * entry. */
  function ReadWire(x: bv64, y: bv64, table: array<int>, w: string): int
    requires ValidOperand(w) && table.Length == TABLE_SIZE
    reads table
  {
    if w[0] == 'x' || w[0] == 'y' then InputBit(x, y, w)
    else table[IndexByStr(w)]
  }

  /** The solver reads -1 exactly for an operand not known yet, and the
    * operand's value otherwise. */
  lemma ReadKnown(ops: seq<Operation>, rank: seq<nat>, x: bv64, y: bv64, table: array<int>, done: set<int>, i: int, w: string)
    requires Circuit(ops, rank) && 0 <= i < |ops| && i !in done
    requires ValidOperand(w) && Driven(ops, rank, i, w)
    requires Table(table[..], ops, rank, x, y, done)
    ensures ReadWire(x, y, table, w) == -1 <==> !Known(ops, done, w)
    ensures Known(ops, done, w) ==> ReadWire(x, y, table, w) == WireValue(ops, rank, x, y, i, w)
  {
    if !IsInput(w) {
      var j := Driver(ops, w);
      assert ops[j].result == w;
      assert Stored(w);
      assert table[..][IndexByStr(w)] == table[IndexByStr(w)];
    }
  }

  /** The variable table after gate `i` writes its result. */
  lemma StoreResult(ops: seq<Operation>, rank: seq<nat>, x: bv64, y: bv64, t: seq<int>, done: set<int>, i: int)
    requires Circuit(ops, rank) && 0 <= i < |ops| && Table(t, ops, rank, x, y, done)
    requires Stored(ops[i].result)
    ensures Table(t[IndexByStr(ops[i].result) := OpValue(ops, rank, x, y, i)], ops, rank, x, y, done + {i})
  {
    var t' := t[IndexByStr(ops[i].result) := OpValue(ops, rank, x, y, i)];
    forall j | 0 <= j < |ops| && Stored(ops[j].result)
      ensures t'[IndexByStr(ops[j].result)] == if j in done + {i} then OpValue(ops, rank, x, y, j) else -1
    {
      IndexInjective(ops[i].result, ops[j].result);
      assert Driver(ops, ops[i].result) == i && Driver(ops, ops[j].result) == j;
    }
  }

  /** The table after a gate that drives a bit of `z`. */
  lemma KeepTable(ops: seq<Operation>, rank: seq<nat>, x: bv64, y: bv64, t: seq<int>, done: set<int>, i: int)
    requires Circuit(ops, rank) && 0 <= i < |ops| && Table(t, ops, rank, x, y, done)
    requires IsOutput(ops[i].result)
    ensures Table(t, ops, rank, x, y, done + {i})
  {
  }

  /** The bits of `z` after gate `i`, whose value is the bit `b`, drives
    * bit `Shift` of it. */
  lemma OutputBit(ops: seq<Operation>, rank: seq<nat>, x: bv64, y: bv64, z: bv64, b: bv64, done: set<int>, i: int)
    requires Circuit(ops, rank) && 0 <= i < |ops| && ZBits(z, ops, rank, x, y, done)
    requires IsOutput(ops[i].result)
    requires b == Long(OpValue(ops, rank, x, y, i))
    ensures ZBits(OrShift(z, b, Shift(ops[i].result)), ops, rank, x, y, done + {i})
  {
    OnesStep(ops, rank, x, y, done, i);
    OrBitInto(z, b, Shift(ops[i].result), Ones(ops, rank, x, y, done), Ones(ops, rank, x, y, done + {i}));
  }

  /** The bits of `z` after a gate that writes the table. */
  lemma KeepBits(ops: seq<Operation>, rank: seq<nat>, x: bv64, y: bv64, z: bv64, done: set<int>, i: int)
    requires Circuit(ops, rank) && 0 <= i < |ops| && ZBits(z, ops, rank, x, y, done)
    requires Stored(ops[i].result)
    ensures ZBits(z, ops, rank, x, y, done + {i})
  {
    OnesStep(ops, rank, x, y, done, i);
  }

  /** Adding gate `i` to `done` adds the bit it sets, if any. */
  lemma OnesStep(ops: seq<Operation>, rank: seq<nat>, x: bv64, y: bv64, done: set<int>, i: int)
    requires Circuit(ops, rank) && 0 <= i < |ops|
    ensures IsOutput(ops[i].result) && OpValue(ops, rank, x, y, i) == 1 ==>
      Ones(ops, rank, x, y, done + {i}) == Ones(ops, rank, x, y, done) + iset{Shift(ops[i].result)}
    ensures !(IsOutput(ops[i].result) && OpValue(ops, rank, x, y, i) == 1) ==>
      Ones(ops, rank, x, y, done + {i}) == Ones(ops, rank, x, y, done)
  {
  }

  /** A gate with an operand not set yet goes to the back of the list. */
  method Requeue(head: OperationListNode, tail: OperationListNode, ghost q: seq<OperationListNode>)
    returns (head': OperationListNode?, tail': OperationListNode?, ghost q': seq<OperationListNode>)
    requires Chain(q, head, tail) && Ends(q) && |q| >= 2
    modifies head, tail
    ensures q' == q[1..] + [q[0]] && Chain(q', head', tail')
  {
    var next := head.next;
    head.next := null;
    tail.next := head;
    tail' := head;
    head' := next;
    q' := q[1..] + [q[0]];
  }

  /** `perform_all_operations`: every gate is evaluated once its operands
    * are set, and the result is the `z` whose bits are the values of the
    * gates driving them. */
  method PerformAllOperations(x: bv64, y: bv64, operations: seq<Operation>, ghost rank: seq<nat>) returns (z: bv64)
    requires Circuit(operations, rank)
    ensures Bits(z) == iset i | 0 <= i < |operations| && IsOutput(operations[i].result) &&
      OpValue(operations, rank, x, y, i) == 1 :: Shift(operations[i].result)
  {
    z := 0;
    var head, tail, nodes := ToLinkedList(operations);
    var otherVariables := new int[TABLE_SIZE](_ => -1);
    Start(operations, rank, x, y, nodes, otherVariables[..]);
    ghost var qi := Positions(|operations|);
    z := Run(x, y, head, tail, z, otherVariables, operations, rank, nodes, nodes, qi, {});
  }

  /** `0, 1, ..., n - 1`. */
  ghost function Positions(n: nat): (s: seq<int>)
    ensures |s| == n && forall i :: 0 <= i < n ==> s[i] == i
  {
    seq(n, i => i)
  }

  /** Before the loop every gate waits, in input order, every table entry
    * is -1 and `z` has no bit set. */
  lemma Start(ops: seq<Operation>, rank: seq<nat>, x: bv64, y: bv64, nodes: seq<OperationListNode>, t: seq<int>)
    requires Circuit(ops, rank) && |nodes| == |ops| && forall k :: 0 <= k < |ops| ==> nodes[k].op == ops[k]
    requires |t| == TABLE_SIZE && forall k :: 0 <= k < |t| ==> t[k] == -1
    ensures Queue(ops, nodes, nodes, Positions(|ops|), {})
    ensures Table(t, ops, rank, x, y, {}) && ZBits(0, ops, rank, x, y, {})
  {
    var qi := Positions(|ops|);
    forall i | 0 <= i < |ops|
      ensures i in qi
    {
      assert qi[i] == i;
    }
    NoBits();
  }

  /** The loop of `perform_all_operations`, from a list `q` of the gates
    * not `done` yet. */
  method Run(x: bv64, y: bv64, head: OperationListNode?, tail: OperationListNode?, z: bv64, otherVariables: array<int>,
             ghost ops: seq<Operation>, ghost rank: seq<nat>, ghost nodes: seq<OperationListNode>,
             ghost q: seq<OperationListNode>, ghost qi: seq<int>, ghost done: set<int>)
    returns (z': bv64)
    requires Circuit(ops, rank) && Chain(q, head, tail) && Queue(ops, nodes, q, qi, done)
    requires Table(otherVariables[..], ops, rank, x, y, done) && ZBits(z, ops, rank, x, y, done)
    modifies nodes, otherVariables
    ensures Bits(z') == iset i | 0 <= i < |ops| && IsOutput(ops[i].result) &&
      OpValue(ops, rank, x, y, i) == 1 :: Shift(ops[i].result)
  {
    var head, tail := head, tail;
    z' := z;
    ghost var q, qi, done := q, qi, done;
    while head != null
      invariant Chain(q, head, tail) && Queue(ops, nodes, q, qi, done)
      invariant Table(otherVariables[..], ops, rank, x, y, done)
      invariant ZBits(z', ops, rank, x, y, done)
      decreases |qi|, FirstReady(ops, done, qi)
    {
      head, tail, z', q, qi, done := Step(x, y, head, tail, z', otherVariables, ops, rank, nodes, q, qi, done);
    }
    AllDone(ops, rank, x, y, done);
  }

  /** One turn of the loop in `perform_all_operations`: the gate at the head
    * is either evaluated and dropped, or sent to the back of the list. */
  method Step(x: bv64, y: bv64, head: OperationListNode, tail: OperationListNode?, z: bv64, otherVariables: array<int>,
              ghost ops: seq<Operation>, ghost rank: seq<nat>, ghost nodes: seq<OperationListNode>,
              ghost q: seq<OperationListNode>, ghost qi: seq<int>, ghost done: set<int>)
    returns (head': OperationListNode?, tail': OperationListNode?, z': bv64,
             ghost q': seq<OperationListNode>, ghost qi': seq<int>, ghost done': set<int>)
    requires Circuit(ops, rank) && Chain(q, head, tail) && Queue(ops, nodes, q, qi, done)
    requires Table(otherVariables[..], ops, rank, x, y, done) && ZBits(z, ops, rank, x, y, done)
    modifies nodes, otherVariables
    ensures Chain(q', head', tail') && Queue(ops, nodes, q', qi', done')
    ensures Table(otherVariables[..], ops, rank, x, y, done') && ZBits(z', ops, rank, x, y, done')
    ensures |qi'| < |qi| || (|qi'| == |qi| && FirstReady(ops, done', qi') < FirstReady(ops, done, qi))
  {
    var op := head.op;
    Decide(ops, rank, x, y, otherVariables, nodes, q, qi, done);
    // The right operand is read only once the left one is set; either one
    // not set sends the gate to the back.
    var lhs := ReadWire(x, y, otherVariables, op.lhs);
    var rhs := -1;
    if lhs != -1 {
      rhs := ReadWire(x, y, otherVariables, op.rhs);
    }
    if lhs == -1 || rhs == -1 {
      head', tail', q', qi' := Rotate(head, tail, ops, rank, nodes, q, qi, done);
      done', z' := done, z;
    } else {
      tail' := tail;
      head', z', q', qi', done' := Evaluate(x, y, head, tail, z, otherVariables, lhs, rhs, ops, rank, nodes, q, qi, done);
    }
  }

  /** The solver reads -1 for an operand of the head gate exactly when
    * that gate is not the first ready one, and the operands' values when
    * it is. */
  lemma Decide(ops: seq<Operation>, rank: seq<nat>, x: bv64, y: bv64, table: array<int>, nodes: seq<OperationListNode>,
               q: seq<OperationListNode>, qi: seq<int>, done: set<int>)
    requires Circuit(ops, rank) && Queue(ops, nodes, q, qi, done) && |qi| > 0
    requires Table(table[..], ops, rank, x, y, done)
    ensures FirstReady(ops, done, qi) < |qi|
    ensures ReadWire(x, y, table, ops[qi[0]].lhs) == -1 || ReadWire(x, y, table, ops[qi[0]].rhs) == -1 <==>
      0 < FirstReady(ops, done, qi)
    ensures ReadWire(x, y, table, ops[qi[0]].lhs) == WireValue(ops, rank, x, y, qi[0], ops[qi[0]].lhs) ||
      ReadWire(x, y, table, ops[qi[0]].lhs) == -1
    ensures ReadWire(x, y, table, ops[qi[0]].rhs) == WireValue(ops, rank, x, y, qi[0], ops[qi[0]].rhs) ||
      ReadWire(x, y, table, ops[qi[0]].rhs) == -1
  {
    var i := qi[0];
    SomeReady(ops, rank, nodes, q, qi, done);
    ReadKnown(ops, rank, x, y, table, done, i, ops[i].lhs);
    ReadKnown(ops, rank, x, y, table, done, i, ops[i].rhs);
  }

  /** A gate that is not ready goes to the back of the list. */
  method Rotate(head: OperationListNode, tail: OperationListNode?,
                ghost ops: seq<Operation>, ghost rank: seq<nat>, ghost nodes: seq<OperationListNode>,
                ghost q: seq<OperationListNode>, ghost qi: seq<int>, ghost done: set<int>)
    returns (head': OperationListNode?, tail': OperationListNode?, ghost q': seq<OperationListNode>, ghost qi': seq<int>)
    requires Circuit(ops, rank) && Chain(q, head, tail) && Queue(ops, nodes, q, qi, done)
    requires 0 < FirstReady(ops, done, qi) < |qi|
    modifies nodes
    ensures Chain(q', head', tail') && Queue(ops, nodes, q', qi', done)
    ensures |qi'| == |qi| && FirstReady(ops, done, qi') < FirstReady(ops, done, qi)
  {
    FirstReadyRotate(ops, done, qi);
    QueueRotate(ops, nodes, q, qi, done);
    Separate(ops, rank, nodes, q, qi, done);
    head', tail', q' := Requeue(head, tail, q);
    qi' := qi[1..] + [qi[0]];
  }

  /** A ready gate is evaluated, its result stored, and it leaves the list. */
  method Evaluate(x: bv64, y: bv64, head: OperationListNode, tail: OperationListNode?, z: bv64, otherVariables: array<int>,
                  lhs: int, rhs: int,
                  ghost ops: seq<Operation>, ghost rank: seq<nat>, ghost nodes: seq<OperationListNode>,
                  ghost q: seq<OperationListNode>, ghost qi: seq<int>, ghost done: set<int>)
    returns (head': OperationListNode?, z': bv64, ghost q': seq<OperationListNode>, ghost qi': seq<int>, ghost done': set<int>)
    requires Circuit(ops, rank) && Chain(q, head, tail) && Queue(ops, nodes, q, qi, done)
    requires Table(otherVariables[..], ops, rank, x, y, done) && ZBits(z, ops, rank, x, y, done)
    requires lhs == WireValue(ops, rank, x, y, qi[0], ops[qi[0]].lhs)
    requires rhs == WireValue(ops, rank, x, y, qi[0], ops[qi[0]].rhs)
    modifies otherVariables
    ensures Chain(q', head', tail) && Queue(ops, nodes, q', qi', done')
    ensures Table(otherVariables[..], ops, rank, x, y, done') && ZBits(z', ops, rank, x, y, done')
    ensures |qi'| < |qi|
  {
    ghost var i := qi[0];
    var op := head.op;
    head' := head.next;
    ChainPop(q, head, tail);
    QueuePop(ops, nodes, q, qi, done);
    var result := Apply(op.kind, lhs, rhs);
    z' := Store(otherVariables, z, ops, rank, x, y, done, i, op.result, result);
    q', qi', done' := q[1..], qi[1..], done + {i};
  }

  /** The result of gate `i` goes to its bit of `z` or to the table. */
  method Store(otherVariables: array<int>, z: bv64, ghost ops: seq<Operation>, ghost rank: seq<nat>, ghost x: bv64, ghost y: bv64,
               ghost done: set<int>, ghost i: int, name: string, result: int)
    returns (z': bv64)
    requires Circuit(ops, rank) && 0 <= i < |ops| && i !in done && name == ops[i].result
    requires Table(otherVariables[..], ops, rank, x, y, done) && ZBits(z, ops, rank, x, y, done)
    requires result == OpValue(ops, rank, x, y, i)
    modifies otherVariables
    ensures Table(otherVariables[..], ops, rank, x, y, done + {i}) && ZBits(z', ops, rank, x, y, done + {i})
    ensures IsOutput(ops[i].result) ==>
      otherVariables[..] == old(otherVariables[..]) && z' == OrShift(z, Long(result), Shift(ops[i].result))
    ensures Stored(ops[i].result) ==>
      otherVariables[..] == old(otherVariables[..])[IndexByStr(ops[i].result) := result] && z' == z
  {
    if name[0] == 'z' {
      OutputBit(ops, rank, x, y, z, Long(result), done, i);
      KeepTable(ops, rank, x, y, otherVariables[..], done, i);
      z' := OrShift(z, Long(result), Shift(name));
    } else {
      StoreResult(ops, rank, x, y, otherVariables[..], done, i);
      KeepBits(ops, rank, x, y, z, done, i);
      otherVariables[IndexByStr(name)] := result;
      z' := z;
    }
  }

  lemma QueueRotate(ops: seq<Operation>, nodes: seq<OperationListNode>, q: seq<OperationListNode>, qi: seq<int>, done: set<int>)
    requires Queue(ops, nodes, q, qi, done) && |q| > 0
    ensures Queue(ops, nodes, q[1..] + [q[0]], qi[1..] + [qi[0]], done)
  {
    var qi' := qi[1..] + [qi[0]];
    forall j | 0 <= j < |ops|
      ensures j in qi' <==> j in qi
    {
      if j in qi {
        var t :| 0 <= t < |qi| && qi[t] == j;
        if t == 0 {
          assert qi'[|qi'| - 1] == j;
        } else {
          assert qi'[t - 1] == j;
        }
      }
    }
    forall s, t | 0 <= s < t < |qi'|
      ensures qi'[s] != qi'[t]
    {
      if t < |qi'| - 1 {
        assert qi'[s] == qi[s + 1] && qi'[t] == qi[t + 1];
      } else {
        assert qi'[s] == qi[s + 1] && qi'[t] == qi[0];
      }
    }
  }

  lemma QueuePop(ops: seq<Operation>, nodes: seq<OperationListNode>, q: seq<OperationListNode>, qi: seq<int>, done: set<int>)
    requires Queue(ops, nodes, q, qi, done) && |q| > 0
    ensures Queue(ops, nodes, q[1..], qi[1..], done + {qi[0]})
  {
    forall j | 0 <= j < |ops|
      ensures j in done + {qi[0]} <==> j !in qi[1..]
    {
      if j in qi[1..] {
        var t :| 0 <= t < |qi[1..]| && qi[1..][t] == j;
        assert qi[t + 1] == j;
      }
      if j !in done + {qi[0]} {
        var t :| 0 <= t < |qi| && qi[t] == j;
        assert qi[1..][t - 1] == j;
      }
    }
  }

  /** Nodes of different gates are different nodes. */
  lemma Separate(ops: seq<Operation>, rank: seq<nat>, nodes: seq<OperationListNode>, q: seq<OperationListNode>, qi: seq<int>, done: set<int>)
    requires Circuit(ops, rank) && Queue(ops, nodes, q, qi, done) && |q| > 0
    ensures Ends(q)
  {
    forall t | 0 < t < |q|
      ensures q[t] != q[0]
    {
      assert Driver(ops, ops[qi[t]].result) == qi[t] && Driver(ops, ops[qi[0]].result) == qi[0];
    }
    forall t | 0 <= t < |q| - 1
      ensures q[t] != q[|q| - 1]
    {
      assert Driver(ops, ops[qi[t]].result) == qi[t] && Driver(ops, ops[qi[|q| - 1]].result) == qi[|q| - 1];
    }
  }

  /** Dropping the head leaves the list from `head.next`. */
  lemma ChainPop(q: seq<OperationListNode>, head: OperationListNode, tail: OperationListNode?)
    requires Chain(q, head, tail)
    ensures Chain(q[1..], head.next, tail)
  {
  }

  /** Once every gate is done, `Ones` holds every bit a gate sets. */
  lemma AllDone(ops: seq<Operation>, rank: seq<nat>, x: bv64, y: bv64, done: set<int>)
    requires Circuit(ops, rank) && forall i :: 0 <= i < |ops| ==> i in done
    ensures Ones(ops, rank, x, y, done) ==
      iset i | 0 <= i < |ops| && IsOutput(ops[i].result) && OpValue(ops, rank, x, y, i) == 1 :: Shift(ops[i].result)
  {
  }
}
