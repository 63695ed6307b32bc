/** The connection pool as values: what each critical section does to the idle queue, the counter and
    the handles, and what holds after any interleaving of them. `H` names handles. */
module PoolState {
  import opened Common

  /** `held` maps a handle to its connection; `open` holds the connections that are still open and
      `made` counts those ever opened; `lent` and `returned` count, per connection, how often it was
      handed out and given back. */
  datatype Pool<!H> = Pool(max: nat, idle: seq<nat>, total: int, held: map<H, nat>,
                           open: set<nat>, made: nat, lent: multiset<nat>, returned: multiset<nat>)

  datatype Outcome = Acquired(conn: nat) | MustWait | Failed

  /** Does the k-th attempt to connect succeed? */
  predicate Connects(net: seq<bool>, k: nat) {
    k < |net| && net[k]
  }

  function Lend<H>(s: Pool<H>, h: H, c: nat): Pool<H> {
    s.(held := s.held[h := c], lent := s.lent + multiset{c})
  }

  function Connect<H>(s: Pool<H>): Pool<H> {
    s.(open := s.open + {s.made}, made := s.made + 1)
  }

  /** `acquire` between two waits, up to the choice of a connection. */
  function Choose<H>(s: Pool<H>, net: seq<bool>, k: nat): (Pool<H>, Outcome)
    decreases |s.idle|
  {
    if s.idle != [] then
      var rest := s.(idle := s.idle[1..]);
      if s.idle[0] in s.open then (rest, Acquired(s.idle[0]))
      else if Connects(net, k) then (Connect(rest), Acquired(s.made))
      else Choose(rest.(total := s.total - 1), net, k + 1)
    else if s.total < s.max then
      if Connects(net, k) then (Connect(s.(total := s.total + 1)), Acquired(s.made))
      else (s, Failed)
    else (s, MustWait)
  }

  /** `acquire` between two waits; h is the handle it returns. */
  function Acquire<H>(s: Pool<H>, h: H, net: seq<bool>): (Pool<H>, Outcome) {
    var (s', out) := Choose(s, net, 0);
    (if out.Acquired? then Lend(s', h, out.conn) else s', out)
  }

  function Return<H>(s: Pool<H>, c: nat): Pool<H> {
    var s' := s.(returned := s.returned + multiset{c});
    if c in s.open then s'.(idle := s.idle + [c]) else s'.(total := s.total - 1)
  }

  /** The end of a handle's life; an empty handle has nothing to return. */
  function Drop<H>(s: Pool<H>, h: H): Pool<H> {
    if h in s.held then Return(s.(held := s.held - {h}), s.held[h]) else s
  }

  function Move<H>(s: Pool<H>, dst: H, src: H): Pool<H> {
    if src in s.held then s.(held := (s.held - {src})[dst := s.held[src]]) else s
  }

  function Assign<H>(s: Pool<H>, dst: H, src: H): Pool<H> {
    if dst == src then s else Move(Drop(s, dst), dst, src)
  }

  /** One critical section, or a connection that breaks. */
  datatype Step<!H> =
    | Take(h: H, net: seq<bool>)
    | Destroy(h: H)
    | MoveConstruct(dst: H, src: H)
    | MoveAssign(dst: H, src: H)
    | Break(conn: nat)

  function Next<H>(s: Pool<H>, e: Step<H>): Pool<H> {
    match e
    case Take(h, net) => if h in s.held then s else Acquire(s, h, net).0
    case Destroy(h) => Drop(s, h)
    case MoveConstruct(dst, src) => if dst in s.held then s else Move(s, dst, src)
    case MoveAssign(dst, src) => Assign(s, dst, src)
    case Break(c) => s.(open := s.open - {c})
  }

  function Run<H>(s: Pool<H>, es: seq<Step<H>>): Pool<H>
    decreases |es|
  {
    if es == [] then s else Run(Next(s, es[0]), es[1..])
  }

  function FirstN(n: nat): seq<nat> {
    seq(n, i => i)
  }

  /** A pool just opened with its first connections. */
  function Fresh<H>(min: nat, max: nat): Pool<H> {
    Pool(max, FirstN(min), min, map[], (set c | c in FirstN(min)), min, multiset{}, multiset{})
  }

  // ---------------------------------------------------------------- invariant

  ghost predicate Out<H>(held: map<H, nat>, c: nat) {
    exists h :: h in held && held[h] == c
  }

  ghost predicate Distinct(idle: seq<nat>) {
    forall i, j | 0 <= i < j < |idle| :: idle[i] != idle[j]
  }

  ghost predicate OneHandleEach<H>(held: map<H, nat>) {
    forall h, h' | h in held && h' in held && h != h' :: held[h] != held[h']
  }

  ghost predicate Apart<H>(s: Pool<H>) {
    && (forall h | h in s.held :: s.held[h] !in s.idle && s.held[h] < s.made)
    && (forall c | c in s.idle :: c < s.made)
  }

  /** Every connection has at most one owner, and none is lost while it is open; connection `loose`,
      if there is one, has just been taken from the queue or opened. */
  ghost predicate Owned<H>(s: Pool<H>, loose: Option<nat>) {
    && Distinct(s.idle)
    && OneHandleEach(s.held)
    && Apart(s)
    && (forall c | c in s.open :: Some(c) == loose || c in s.idle || Out(s.held, c))
    && (loose.Some? ==> loose.value < s.made && loose.value !in s.idle && !Out(s.held, loose.value))
  }

  ghost predicate Accounted<H>(s: Pool<H>) {
    forall c :: s.lent[c] == s.returned[c] + if Out(s.held, c) then 1 else 0
  }

  ghost predicate Inv<H>(s: Pool<H>) {
    && s.total == |s.idle| + |s.held| <= s.max
    && Owned(s, None)
    && Accounted(s)
  }

  lemma HeldAdds<H>(held: map<H, nat>, h: H, c: nat, x: nat)
    requires h !in held
    ensures Out(held[h := c], x) <==> Out(held, x) || x == c
    ensures |held[h := c]| == |held| + 1
  {
    var held' := held[h := c];
    assert h in held' && held'[h] == c;
    if Out(held, x) {
      var g :| g in held && held[g] == x;
      assert g in held' && held'[g] == x;
    }
  }

  lemma HeldRemoves<H>(held: map<H, nat>, h: H, x: nat)
    requires h in held && OneHandleEach(held)
    ensures Out(held - {h}, x) <==> Out(held, x) && x != held[h]
    ensures |held| == |held - {h}| + 1
  {
    var held' := held - {h};
    assert held == held'[h := held[h]];
    HeldAdds(held', h, held[h], x);
    assert !Out(held', held[h]);
  }

  lemma LendKeepsOwned<H>(s: Pool<H>, h: H, c: nat)
    requires h !in s.held && Owned(s, Some(c)) && Accounted(s)
    ensures Owned(Lend(s, h, c), None) && Accounted(Lend(s, h, c)) && |Lend(s, h, c).held| == |s.held| + 1
  {
    forall x {
      HeldAdds(s.held, h, c, x);
    }
  }

  lemma TakeFirst<H>(s: Pool<H>)
    requires Owned(s, None) && s.idle != []
    ensures Owned(s.(idle := s.idle[1..]), Some(s.idle[0]))
  {
    var c := s.idle[0];
    assert c in s.idle;
    assert forall x :: x in s.idle <==> x == c || x in s.idle[1..];
  }

  lemma OpenNew<H>(s: Pool<H>, loose: Option<nat>)
    requires Owned(s, loose) && (loose.Some? ==> loose.value !in s.open)
    ensures Owned(Connect(s), Some(s.made))
  {
  }

  /** A chosen connection is loose and counted; otherwise nothing is. */
  ghost predicate Chosen<H>(s: Pool<H>, out: Outcome) {
    && Owned(s, if out.Acquired? then Some(out.conn) else None)
    && Accounted(s)
    && s.total == |s.idle| + |s.held| + (if out.Acquired? then 1 else 0) <= s.max
  }

  lemma TakenIsChosen<H>(s: Pool<H>)
    requires Inv(s) && s.idle != []
    ensures Chosen(s.(idle := s.idle[1..]), Acquired(s.idle[0]))
  {
    TakeFirst(s);
  }

  lemma ReplacedIsChosen<H>(s: Pool<H>, c: nat)
    requires Chosen(s, Acquired(c)) && c !in s.open
    ensures Chosen(Connect(s), Acquired(s.made))
  {
    OpenNew(s, Some(c));
  }

  lemma ForgottenKeepsInv<H>(s: Pool<H>, c: nat)
    requires Chosen(s, Acquired(c)) && c !in s.open
    ensures Inv(s.(total := s.total - 1))
  {
    ForgetKeepsOwned(s, c);
  }

  lemma GrownIsChosen<H>(s: Pool<H>)
    requires Inv(s) && s.total < s.max
    ensures Chosen(Connect(s.(total := s.total + 1)), Acquired(s.made))
  {
    OpenNew(s.(total := s.total + 1), None);
  }

  lemma {:induction false} ChooseKeepsInv<H>(s: Pool<H>, net: seq<bool>, k: nat)
    requires Inv(s)
    ensures var (s', out) := Choose(s, net, k); Chosen(s', out) && s'.held == s.held && s'.max == s.max
    decreases |s.idle|
  {
    if s.idle != [] {
      var c := s.idle[0];
      var rest := s.(idle := s.idle[1..]);
      TakenIsChosen(s);
      if c !in s.open {
        if Connects(net, k) {
          ReplacedIsChosen(rest, c);
        } else {
          ForgottenKeepsInv(rest, c);
          ChooseKeepsInv(rest.(total := s.total - 1), net, k + 1);
        }
      }
    } else if s.total < s.max && Connects(net, k) {
      GrownIsChosen(s);
    }
  }

  lemma AcquireKeepsInv<H>(s: Pool<H>, h: H, net: seq<bool>)
    requires Inv(s) && h !in s.held
    ensures Inv(Acquire(s, h, net).0)
  {
    var (s', out) := Choose(s, net, 0);
    ChooseKeepsInv(s, net, 0);
    if out.Acquired? {
      LendKeepsOwned(s', h, out.conn);
    }
  }

  lemma ForgetKeepsOwned<H>(s: Pool<H>, c: nat)
    requires Owned(s, Some(c)) && c !in s.open
    ensures Owned(s.(total := s.total - 1), None)
  {
  }

  lemma DropKeepsInv<H>(s: Pool<H>, h: H)
    requires Inv(s)
    ensures Inv(Drop(s, h)) && h !in Drop(s, h).held
  {
    if h in s.held {
      var c := s.held[h];
      assert Out(s.held, c);
      forall x {
        HeldRemoves(s.held, h, x);
      }
      var s' := Drop(s, h);
      assert forall x :: x in s'.idle <==> x in s.idle || (x == c && c in s.open);
    }
  }

  lemma MoveKeepsInv<H>(s: Pool<H>, dst: H, src: H)
    requires Inv(s) && dst !in s.held
    ensures Inv(Move(s, dst, src))
  {
    if src in s.held {
      var c := s.held[src];
      assert Out(s.held, c);
      forall x
        ensures Out(Move(s, dst, src).held, x) <==> Out(s.held, x)
      {
        HeldRemoves(s.held, src, x);
        HeldAdds(s.held - {src}, dst, c, x);
      }
      HeldRemoves(s.held, src, c);
      HeldAdds(s.held - {src}, dst, c, c);
    }
  }

  lemma AssignKeepsInv<H>(s: Pool<H>, dst: H, src: H)
    requires Inv(s)
    ensures Inv(Assign(s, dst, src))
  {
    if dst != src {
      DropKeepsInv(s, dst);
      MoveKeepsInv(Drop(s, dst), dst, src);
    }
  }

  lemma NextKeepsInv<H>(s: Pool<H>, e: Step<H>)
    requires Inv(s)
    ensures Inv(Next(s, e)) && Next(s, e).max == s.max
  {
    match e {
      case Take(h, net) =>
        if h !in s.held {
          ChooseKeepsInv(s, net, 0);
          AcquireKeepsInv(s, h, net);
        }
      case Destroy(h) => DropKeepsInv(s, h);
      case MoveConstruct(dst, src) =>
        if dst !in s.held {
          MoveKeepsInv(s, dst, src);
        }
      case MoveAssign(dst, src) => AssignKeepsInv(s, dst, src);
      case Break(c) =>
    }
  }

  lemma {:induction false} RunKeepsInv<H>(s: Pool<H>, es: seq<Step<H>>)
    requires Inv(s)
    ensures Inv(Run(s, es)) && Run(s, es).max == s.max
    decreases |es|
  {
    if es != [] {
      NextKeepsInv(s, es[0]);
      RunKeepsInv(Next(s, es[0]), es[1..]);
    }
  }

  lemma FreshInv<H>(min: nat, max: nat)
    requires min <= max
    ensures Inv(Fresh<H>(min, max))
  {
  }

  // ---------------------------------------------------------------- theorems

  /** In every interleaving of acquires, handle moves, destructions and breaking connections: the
      counter agrees with the idle and lent connections and never exceeds the maximum, every open
      connection has exactly one owner, and every lend has been returned once or is still out. */
  lemma PoolStaysConsistent<H>(min: nat, max: nat, es: seq<Step<H>>)
    requires min <= max
    ensures var s := Run(Fresh(min, max), es);
            && 0 <= s.total == |s.idle| + |s.held| <= max
            && (forall c | c in s.open :: c in s.idle <==> !Out(s.held, c))
            && (forall h, h' | h in s.held && h' in s.held && s.held[h] == s.held[h'] :: h == h')
            && (forall c :: s.lent[c] == s.returned[c] + if Out(s.held, c) then 1 else 0)
  {
    FreshInv<H>(min, max);
    RunKeepsInv(Fresh<H>(min, max), es);
  }

  /** When every handle is gone, every lend has been returned and only idle connections are counted. */
  lemma AllReturnedAtTheEnd<H>(min: nat, max: nat, es: seq<Step<H>>)
    requires min <= max && Run(Fresh(min, max), es).held == map[]
    ensures var s := Run(Fresh(min, max), es); s.lent == s.returned && s.total == |s.idle|
  {
    PoolStaysConsistent(min, max, es);
    var s := Run(Fresh<H>(min, max), es);
    forall c
      ensures s.lent[c] == s.returned[c]
    {
      assert !Out(s.held, c);
    }
  }

  /** `acquire` waits if and only if all connections the pool may have are lent; it fails if and only if
      there is room, no idle connection is open, and every attempt to connect fails. */
  lemma {:induction false} AcquireOutcome<H>(s: Pool<H>, net: seq<bool>, k: nat)
    requires s.total == |s.idle| + |s.held| <= s.max
    ensures var (s', out) := Choose(s, net, k);
            && (out.MustWait? <==> |s.held| == s.max)
            && (out.MustWait? ==> s' == s)
            && (out.Failed? <==>
                  && |s.held| < s.max
                  && (forall c | c in s.idle :: c !in s.open)
                  && forall j | k <= j <= k + |s.idle| :: !Connects(net, j))
            && (out.Failed? ==> s' == s.(idle := [], total := |s.held|))
    decreases |s.idle|
  {
    if s.idle != [] && s.idle[0] !in s.open && !Connects(net, k) {
      var less := s.(idle := s.idle[1..], total := s.total - 1);
      AcquireOutcome(less, net, k + 1);
      assert forall c :: c in s.idle <==> c == s.idle[0] || c in less.idle;
    }
  }

  /** The first open connection of the queue, or its length if all are closed. */
  function FirstOpen(idle: seq<nat>, open: set<nat>): (i: nat)
    ensures i <= |idle|
    ensures i < |idle| ==> idle[i] in open
    ensures forall j | 0 <= j < i :: idle[j] !in open
  {
    if idle == [] || idle[0] in open then 0 else 1 + FirstOpen(idle[1..], open)
  }

  /** What an acquire hands out is open and no other handle has it: either the connection that waited
      longest in the queue and is still open, all closed ones ahead of it being forgotten, or a new one. */
  lemma AcquiredIsOpen<H>(s: Pool<H>, h: H, net: seq<bool>)
    requires Inv(s) && h !in s.held && Acquire(s, h, net).1.Acquired?
    ensures var (s', out) := Acquire(s, h, net);
            var i := FirstOpen(s.idle, s.open);
            && out.conn in s'.open
            && out.conn !in s.held.Values
            && s'.held == s.held[h := out.conn]
            && (out.conn == s.made || (i < |s.idle| && out.conn == s.idle[i] && s'.idle == s.idle[i + 1..]))
  {
    ChosenIsOpen(s, net, 0);
    ChooseKeepsInv(s, net, 0);
  }

  lemma {:induction false} ChosenIsOpen<H>(s: Pool<H>, net: seq<bool>, k: nat)
    requires Choose(s, net, k).1.Acquired?
    ensures var (s', out) := Choose(s, net, k);
            var i := FirstOpen(s.idle, s.open);
            && out.conn in s'.open
            && (out.conn == s.made || (i < |s.idle| && out.conn == s.idle[i] && s'.idle == s.idle[i + 1..]))
    decreases |s.idle|
  {
    if s.idle != [] && s.idle[0] !in s.open && !Connects(net, k) {
      ChosenIsOpen(s.(idle := s.idle[1..], total := s.total - 1), net, k + 1);
    }
  }

  /** The connections that n acquires one after the other hand out, while the first n of the queue are open. */
  lemma {:induction false} OldestFirst<H>(s: Pool<H>, hs: seq<H>, net: seq<bool>)
    requires |hs| <= |s.idle| && forall i | 0 <= i < |hs| :: s.idle[i] in s.open
    ensures Handed(s, hs, net) == s.idle[..|hs|]
    decreases |hs|
  {
    if hs != [] {
      var s1 := Acquire(s, hs[0], net).0;
      assert s1.idle == s.idle[1..] && s1.open == s.open;
      OldestFirst(s1, hs[1..], net);
      assert [s.idle[0]] + s.idle[1..][..|hs| - 1] == s.idle[..|hs|];
    }
  }

  function Handed<H>(s: Pool<H>, hs: seq<H>, net: seq<bool>): seq<nat>
    decreases |hs|
  {
    if hs == [] then []
    else
      var (s', out) := Acquire(s, hs[0], net);
      (if out.Acquired? then [out.conn] else []) + Handed(s', hs[1..], net)
  }

  /** First in, first out: while all connections stay open, a connection given back is handed out again
      after exactly those that were waiting in the queue before it, in their order. */
  lemma ReturnedIsLast<H>(s: Pool<H>, h: H, hs: seq<H>, net: seq<bool>)
    requires h in s.held && s.held[h] in s.open && forall c | c in s.idle :: c in s.open
    requires |hs| == |s.idle| + 1
    ensures Handed(Drop(s, h), hs, net) == s.idle + [s.held[h]]
  {
    var s1 := Drop(s, h);
    assert s1.idle == s.idle + [s.held[h]];
    OldestFirst(s1, hs, net);
  }

  /** A handle's connection moves with it: assigning gives back what the target held, once, and
      assigning a handle to itself changes nothing. */
  lemma AssignMeaning<H>(s: Pool<H>, dst: H, src: H)
    requires Inv(s)
    ensures dst == src ==> Assign(s, dst, src) == s
    ensures dst != src ==>
              var s' := Assign(s, dst, src);
              && src !in s'.held
              && (dst in s'.held <==> src in s.held)
              && (src in s.held ==> s'.held[dst] == s.held[src])
              && (forall h | h != dst && h != src :: (h in s'.held <==> h in s.held) && (h in s.held ==> s'.held[h] == s.held[h]))
              && s'.returned == s.returned + (if dst in s.held then multiset{s.held[dst]} else multiset{})
              && s'.lent == s.lent
  {
  }
}
