/** The aggregate limits on typed values crossing the connector boundary. */
module TypedValues {
  import opened Wrappers
  import opened Utf8
  import opened Abi

  const MAXIMUM_JSON_DEPTH: nat := 64
  const MAXIMUM_JSON_NODES: nat := 100000
  const MAXIMUM_INLINE_VALUES: nat := 16
  const MAXIMUM_DECODED_INLINE_BYTES: nat := 131072

  /** `usize::MAX` of the 64-bit targets. */
  const USIZE_MAX: nat := 0xFFFF_FFFF_FFFF_FFFF

  /** Inline bytes are bounded by their own constructor. */
  type InlineBytes = b: Bytes | |b| <= 131072

  /** Object members are listed in the key order of the source's ordered map. */
  datatype TypedValue =
    | Null
    | Boolean(flag: bool)
    | String(text: string)
    | Number(canonical: string)
    | List(items: seq<TypedValue>)
    | Object(members: seq<Member>)
    | Inline(bytes: InlineBytes)

  datatype Member = Member(name: string, value: TypedValue)

  // ----- What the limits mean, by recursion over the tree

  /** Every node lies at depth 64 or less below depth `depth`, every text within its bound. */
  ghost predicate Admissible(value: TypedValue, depth: nat) {
    && depth <= MAXIMUM_JSON_DEPTH
    && match value
       case String(text) => Length(text) <= MAXIMUM_SAFE_STRING_BYTES
       case List(items) => forall item | item in items :: Admissible(item, depth + 1)
       case Object(members) =>
         forall member | member in members ::
           Length(member.name) <= MAXIMUM_SAFE_STRING_BYTES && Admissible(member.value, depth + 1)
       case _ => true
  }

  /** The three running totals the validator keeps. */
  datatype Quantity = Nodes | InlineValues | InlineOctets

  function Limit(q: Quantity): nat {
    match q
    case Nodes => MAXIMUM_JSON_NODES
    case InlineValues => MAXIMUM_INLINE_VALUES
    case InlineOctets => MAXIMUM_DECODED_INLINE_BYTES
  }

  /** What one node adds, without what lies below it. */
  function Own(q: Quantity, value: TypedValue): nat {
    match q
    case Nodes => 1
    case InlineValues => if value.Inline? then 1 else 0
    case InlineOctets => if value.Inline? then |value.bytes| else 0
  }

  /** What a whole tree adds. */
  function Total(q: Quantity, value: TypedValue): nat {
    Own(q, value) +
    match value
    case List(items) => TotalOf(q, items)
    case Object(members) => TotalOfMembers(q, members)
    case _ => 0
  }

  function TotalOf(q: Quantity, values: seq<TypedValue>): nat {
    if values == [] then 0 else Total(q, values[0]) + TotalOf(q, values[1..])
  }

  function TotalOfMembers(q: Quantity, members: seq<Member>): nat {
    if members == [] then 0 else Total(q, members[0].value) + TotalOfMembers(q, members[1..])
  }

  function Values(members: seq<Member>): seq<TypedValue> {
    seq(|members|, i requires 0 <= i < |members| => members[i].value)
  }

  /** The verdict on a list of roots: admissible trees, and totals over all of them that fit. */
  ghost predicate RootsConform(roots: seq<TypedValue>) {
    && (forall root | root in roots :: Admissible(root, 0))
    && (forall q :: TotalOf(q, roots) <= Limit(q))
  }

  lemma {:induction false} TotalOfConcat(q: Quantity, a: seq<TypedValue>, b: seq<TypedValue>)
    ensures TotalOf(q, a + b) == TotalOf(q, a) + TotalOf(q, b)
  {
    if a == [] {
      assert a + b == b;
    } else {
      assert (a + b)[1..] == a[1..] + b;
      TotalOfConcat(q, a[1..], b);
    }
  }

  lemma {:induction false} TotalOfMembersIsTotalOfValues(q: Quantity, members: seq<Member>)
    ensures TotalOfMembers(q, members) == TotalOf(q, Values(members))
  {
    if members != [] {
      assert Values(members)[1..] == Values(members[1..]);
      TotalOfMembersIsTotalOfValues(q, members[1..]);
    }
  }

  lemma TotalOfRemoved(q: Quantity, values: seq<TypedValue>, at: nat)
    requires at < |values|
    ensures TotalOf(q, values) == Total(q, values[at]) + TotalOf(q, values[..at] + values[at + 1..])
  {
    TotalOfConcat(q, values[..at], values[at..]);
    TotalOfConcat(q, values[..at], values[at + 1..]);
    assert values == values[..at] + values[at..];
    assert values[at..][1..] == values[at + 1..];
  }

  /** Where the first element of one arrangement stands in the other. */
  lemma FirstElsewhere<T>(a: seq<T>, b: seq<T>) returns (at: nat)
    requires a != [] && multiset(a) == multiset(b)
    ensures at < |b| && b[at] == a[0] && multiset(a[1..]) == multiset(b[..at] + b[at + 1..])
  {
    assert a[0] in multiset(b);
    at :| at < |b| && b[at] == a[0];
    WithoutOne(b, at);
    WithoutOne(a, 0);
    assert a[..0] + a[1..] == a[1..];
    Cancel(multiset(a[1..]), multiset(b[..at] + b[at + 1..]), a[0]);
  }

  lemma Cancel<T>(a: multiset<T>, b: multiset<T>, extra: T)
    requires a + multiset{extra} == b + multiset{extra}
    ensures a == b
  {
    assert a == (a + multiset{extra}) - multiset{extra};
    assert b == (b + multiset{extra}) - multiset{extra};
  }

  lemma WithoutOne<T>(s: seq<T>, at: nat)
    requires at < |s|
    ensures multiset(s) == multiset(s[..at] + s[at + 1..]) + multiset{s[at]}
  {
    assert s == s[..at] + [s[at]] + s[at + 1..];
  }

  lemma {:induction false} TotalIgnoresOrder(q: Quantity, a: seq<TypedValue>, b: seq<TypedValue>)
    requires multiset(a) == multiset(b)
    ensures TotalOf(q, a) == TotalOf(q, b)
  {
    if a != [] {
      var at := FirstElsewhere(a, b);
      TotalIgnoresOrder(q, a[1..], b[..at] + b[at + 1..]);
      TotalOfRemoved(q, b, at);
    } else {
      assert |multiset(b)| == 0;
    }
  }

  /** The verdict does not depend on the order in which the roots are visited. */
  lemma RootOrderIsIrrelevant(a: seq<TypedValue>, b: seq<TypedValue>)
    requires multiset(a) == multiset(b)
    ensures RootsConform(a) <==> RootsConform(b)
  {
    assert forall v :: v in a <==> v in multiset(a);
    assert forall v :: v in b <==> v in multiset(b);
    forall q ensures TotalOf(q, a) == TotalOf(q, b) {
      TotalIgnoresOrder(q, a, b);
    }
  }

  // ----- The iterative validator

  class ValueCounters {
    var nodes: nat
    var inlineValues: nat
    var decodedInlineBytes: nat

    constructor ()
      ensures forall q :: Counted(q) == 0
    {
      nodes, inlineValues, decodedInlineBytes := 0, 0, 0;
    }

    ghost function Counted(q: Quantity): nat
      reads this
    {
      match q
      case Nodes => nodes
      case InlineValues => inlineValues
      case InlineOctets => decodedInlineBytes
    }

    ghost predicate WithinLimits()
      reads this
    {
      forall q :: Counted(q) <= Limit(q)
    }
  }

  /** `usize::checked_add`. */
  function CheckedAdd(a: nat, b: nat): (r: Option<nat>) {
    if a + b <= USIZE_MAX then Some(a + b) else None
  }

  datatype Pending = Pending(value: TypedValue, depth: nat)

  function PendingValues(pending: seq<Pending>): seq<TypedValue> {
    seq(|pending|, i requires 0 <= i < |pending| => pending[i].value)
  }

  ghost function TotalPending(q: Quantity, pending: seq<Pending>): nat { TotalOf(q, PendingValues(pending)) }

  ghost predicate PendingAdmissible(pending: seq<Pending>) {
    forall p | p in pending :: Admissible(p.value, p.depth)
  }

  function AtDepth(values: seq<TypedValue>, depth: nat): seq<Pending> {
    seq(|values|, i requires 0 <= i < |values| => Pending(values[i], depth))
  }

  lemma PushedTotal(q: Quantity, stack: seq<Pending>, items: seq<TypedValue>, depth: nat)
    ensures TotalPending(q, stack + AtDepth(items, depth)) == TotalPending(q, stack) + TotalOf(q, items)
  {
    assert PendingValues(stack + AtDepth(items, depth)) == PendingValues(stack) + items;
    TotalOfConcat(q, PendingValues(stack), items);
  }

  lemma PushedAdmissible(stack: seq<Pending>, items: seq<TypedValue>, depth: nat)
    ensures PendingAdmissible(stack + AtDepth(items, depth)) <==>
            PendingAdmissible(stack) && forall item | item in items :: Admissible(item, depth)
  {
    var pushed := AtDepth(items, depth);
    assert forall p :: p in stack + pushed <==> p in stack || p in pushed;
    forall item | item in items && PendingAdmissible(pushed) ensures Admissible(item, depth) {
      var i :| 0 <= i < |items| && items[i] == item;
      assert pushed[i] == Pending(item, depth);
    }
    forall p | p in pushed && forall item | item in items :: Admissible(item, depth)
      ensures Admissible(p.value, p.depth)
    {
      var i :| 0 <= i < |pushed| && pushed[i] == p;
      assert p == Pending(items[i], depth) && items[i] in items;
    }
  }

  lemma Popped(q: Quantity, pending: seq<Pending>)
    requires |pending| > 0
    ensures var (rest, top) := (pending[..|pending| - 1], pending[|pending| - 1]);
            && TotalPending(q, pending) == TotalPending(q, rest) + Total(q, top.value)
            && (PendingAdmissible(pending) <==> PendingAdmissible(rest) && Admissible(top.value, top.depth))
  {
    var rest, top := pending[..|pending| - 1], pending[|pending| - 1];
    assert rest + AtDepth([top.value], top.depth) == pending;
    PushedTotal(q, rest, [top.value], top.depth);
    PushedAdmissible(rest, [top.value], top.depth);
    assert [top.value][1..] == [];
  }

  /** The loop over an object's members: names are checked, values pushed in key order. */
  method PushMembers(members: seq<Member>, stack: seq<Pending>, depth: nat)
    returns (r: Result<seq<Pending>, AbiError>)
    ensures r.Ok? <==> forall m | m in members :: Length(m.name) <= MAXIMUM_SAFE_STRING_BYTES
    ensures r.Ok? ==> r.value == stack + AtDepth(Values(members), depth)
    ensures r.Err? ==> r.error == LimitExceeded
  {
    var pending := stack;
    for i := 0 to |members|
      invariant forall k | 0 <= k < i :: Length(members[k].name) <= MAXIMUM_SAFE_STRING_BYTES
      invariant pending == stack + AtDepth(Values(members[..i]), depth)
    {
      var Member(name, value) := members[i];
      if Length(name) > MAXIMUM_SAFE_STRING_BYTES {
        assert members[i] in members;
        return Err(LimitExceeded);
      }
      pending := pending + [Pending(value, depth)];
    }
    assert members[..|members|] == members;
    return Ok(pending);
  }

  /** The counters' part of one visit: nodes, inline values and inline bytes. */
  method Count(value: TypedValue, counters: ValueCounters) returns (r: Verdict<AbiError>)
    requires counters.WithinLimits()
    modifies counters
    ensures r.Accept? <==> forall q :: old(counters.Counted(q)) + Own(q, value) <= Limit(q)
    ensures r.Accept? ==> forall q :: counters.Counted(q) == old(counters.Counted(q)) + Own(q, value)
    ensures r.Reject? ==> r.error == LimitExceeded
  {
    assert counters.Counted(Nodes) <= Limit(Nodes) && counters.Counted(InlineValues) <= Limit(InlineValues);
    assert counters.Counted(InlineOctets) <= Limit(InlineOctets);
    var nodes := CheckedAdd(counters.nodes, 1);
    if nodes.None? {
      return Reject(SizeOverflow);
    }
    counters.nodes := nodes.value;
    if counters.nodes > MAXIMUM_JSON_NODES {
      assert old(counters.Counted(Nodes)) + Own(Nodes, value) > Limit(Nodes);
      return Reject(LimitExceeded);
    }
    if value.Inline? {
      var inlineValues := CheckedAdd(counters.inlineValues, 1);
      if inlineValues.None? {
        return Reject(SizeOverflow);
      }
      counters.inlineValues := inlineValues.value;
      if counters.inlineValues > MAXIMUM_INLINE_VALUES {
        assert old(counters.Counted(InlineValues)) + Own(InlineValues, value) > Limit(InlineValues);
        return Reject(LimitExceeded);
      }
      var inlineBytes := CheckedAdd(counters.decodedInlineBytes, |value.bytes|);
      if inlineBytes.None? {
        return Reject(SizeOverflow);
      }
      counters.decodedInlineBytes := inlineBytes.value;
      if counters.decodedInlineBytes > MAXIMUM_DECODED_INLINE_BYTES {
        assert old(counters.Counted(InlineOctets)) + Own(InlineOctets, value) > Limit(InlineOctets);
        return Reject(LimitExceeded);
      }
    }
    return Accept;
  }

  lemma MembersAdmissible(members: seq<Member>, depth: nat)
    ensures (forall item | item in Values(members) :: Admissible(item, depth)) <==>
            (forall member | member in members :: Admissible(member.value, depth))
  {
    var values := Values(members);
    forall member | member in members && forall item | item in values :: Admissible(item, depth)
      ensures Admissible(member.value, depth)
    {
      var i :| 0 <= i < |members| && members[i] == member;
      assert values[i] == member.value;
    }
  }

  /** The stack's part of one visit: texts are checked, children pushed one level deeper. */
  method Expand(value: TypedValue, depth: nat, stack: seq<Pending>) returns (r: Result<seq<Pending>, AbiError>)
    requires depth <= MAXIMUM_JSON_DEPTH
    ensures r.Ok? ==>
      forall q :: Own(q, value) + TotalPending(q, r.value) == TotalPending(q, stack) + Total(q, value)
    ensures r.Ok? ==> (PendingAdmissible(r.value) <==> PendingAdmissible(stack) && Admissible(value, depth))
    ensures r.Err? ==> r.error == LimitExceeded && !Admissible(value, depth)
  {
    match value {
      case String(text) =>
        if Length(text) > MAXIMUM_SAFE_STRING_BYTES {
          return Err(LimitExceeded);
        }
        return Ok(stack);
      case List(items) =>
        forall q
          ensures TotalPending(q, stack + AtDepth(items, depth + 1)) == TotalPending(q, stack) + TotalOf(q, items)
        {
          PushedTotal(q, stack, items, depth + 1);
        }
        PushedAdmissible(stack, items, depth + 1);
        return Ok(stack + AtDepth(items, depth + 1));
      case Object(members) =>
        var children := Values(members);
        forall q
          ensures TotalPending(q, stack + AtDepth(children, depth + 1))
               == TotalPending(q, stack) + TotalOfMembers(q, members)
        {
          PushedTotal(q, stack, children, depth + 1);
          TotalOfMembersIsTotalOfValues(q, members);
        }
        PushedAdmissible(stack, children, depth + 1);
        MembersAdmissible(members, depth + 1);
        r := PushMembers(members, stack, depth + 1);
      case _ =>
        return Ok(stack);
    }
  }

  /** One turn of the loop: nothing is lost or counted twice, and the verdict still to be reached is the same. */
  method Visit(pending: seq<Pending>, counters: ValueCounters) returns (r: Result<seq<Pending>, AbiError>)
    requires |pending| > 0 && counters.WithinLimits()
    modifies counters
    ensures r.Ok? ==> counters.WithinLimits()
    ensures r.Ok? ==> forall q ::
      counters.Counted(q) + TotalPending(q, r.value) == old(counters.Counted(q)) + TotalPending(q, pending)
    ensures r.Ok? ==> (PendingAdmissible(r.value) <==> PendingAdmissible(pending))
    ensures r.Ok? ==> TotalPending(Nodes, r.value) < TotalPending(Nodes, pending)
    ensures r.Err? ==> r.error == LimitExceeded
    ensures r.Err? && PendingAdmissible(pending) ==>
      exists q :: old(counters.Counted(q)) + TotalPending(q, pending) > Limit(q)
  {
    var last := |pending| - 1;
    var Pending(value, depth) := pending[last];
    forall q ensures TotalPending(q, pending) == TotalPending(q, pending[..last]) + Total(q, value) {
      Popped(q, pending);
    }
    Popped(Nodes, pending);
    if depth > MAXIMUM_JSON_DEPTH {
      return Err(LimitExceeded);
    }
    var verdict := Count(value, counters);
    if verdict.Reject? {
      ghost var q :| old(counters.Counted(q)) + Own(q, value) > Limit(q);
      assert old(counters.Counted(q)) + TotalPending(q, pending) > Limit(q);
      return Err(verdict.error);
    }
    r := Expand(value, depth, pending[..last]);
    assert Own(Nodes, value) == 1;
  }

  method ValidateTypedValueRoot(root: TypedValue, counters: ValueCounters) returns (r: Verdict<AbiError>)
    requires counters.WithinLimits()
    modifies counters
    ensures r.Accept? <==> Admissible(root, 0) && forall q :: old(counters.Counted(q)) + Total(q, root) <= Limit(q)
    ensures r.Accept? ==> forall q :: counters.Counted(q) == old(counters.Counted(q)) + Total(q, root)
    ensures r.Reject? ==> r.error == LimitExceeded
  {
    var pending := [Pending(root, 0)];
    forall q ensures TotalPending(q, pending) == Total(q, root) {
      Popped(q, pending);
    }
    Popped(Nodes, pending);
    while |pending| > 0
      invariant counters.WithinLimits()
      invariant forall q :: counters.Counted(q) + TotalPending(q, pending) == old(counters.Counted(q)) + Total(q, root)
      invariant PendingAdmissible(pending) <==> Admissible(root, 0)
      decreases TotalPending(Nodes, pending)
    {
      var next := Visit(pending, counters);
      if next.Err? {
        return Reject(next.error);
      }
      pending := next.value;
    }
    assert forall q :: TotalPending(q, pending) == 0;
    return Accept;
  }

  lemma RootPrefix(q: Quantity, roots: seq<TypedValue>, i: nat)
    requires i < |roots|
    ensures TotalOf(q, roots[..i + 1]) == TotalOf(q, roots[..i]) + Total(q, roots[i]) <= TotalOf(q, roots)
  {
    assert roots[..i + 1] == roots[..i] + [roots[i]] && roots == roots[..i + 1] + roots[i + 1..];
    TotalOfConcat(q, roots[..i + 1], roots[i + 1..]);
    TotalOfConcat(q, roots[..i], [roots[i]]);
    assert [roots[i]][1..] == [];
  }

  method ValidateTypedValueRoots(roots: seq<TypedValue>) returns (r: Verdict<AbiError>)
    ensures r.Accept? <==> RootsConform(roots)
    ensures r.Reject? ==> r.error == LimitExceeded
  {
    var counters := new ValueCounters();
    for i := 0 to |roots|
      invariant fresh(counters) && counters.WithinLimits()
      invariant forall q :: counters.Counted(q) == TotalOf(q, roots[..i])
      invariant forall k | 0 <= k < i :: Admissible(roots[k], 0)
    {
      forall q ensures TotalOf(q, roots[..i + 1]) == TotalOf(q, roots[..i]) + Total(q, roots[i]) <= TotalOf(q, roots) {
        RootPrefix(q, roots, i);
      }
      var verdict := ValidateTypedValueRoot(roots[i], counters);
      if verdict.Reject? {
        assert roots[i] in roots;
        return verdict;
      }
    }
    assert roots[..|roots|] == roots;
    return Accept;
  }
}
