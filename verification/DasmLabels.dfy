/** How DynASM binds references to labels: pending references of a label are threaded through the
    buffers, and a definition collapses the chain. Which label a reference means is defined on the
    history of all references and definitions. */
module Labels {
  datatype Id = LG(n: int) | PC(n: int)

  /** A backward local reference, a forward local one, or one to a global or PC label. */
  datatype Mode = Back | Fwd | Any

  datatype Event = Ref(id: Id, pos: int, mode: Mode) | Def(id: Id, pos: int) | Reset

  predicate IsLocal(id: Id) {
    id.LG? && 1 <= id.n < 10
  }

  /** The latest definition before event i, or 0. Locals are forgotten at a reset. */
  function LastDef(hist: seq<Event>, i: nat, id: Id): int
    requires i <= |hist|
  {
    if i == 0 then 0
    else match hist[i - 1]
      case Def(other, pos) => if other == id then pos else LastDef(hist, i - 1, id)
      case Reset => if IsLocal(id) then 0 else LastDef(hist, i - 1, id)
      case _ => LastDef(hist, i - 1, id)
  }

  /** The next definition from event i on, or 0. */
  function NextDef(hist: seq<Event>, i: nat, id: Id): int
    requires i <= |hist|
    decreases |hist| - i
  {
    if i == |hist| then 0
    else match hist[i]
      case Def(other, pos) => if other == id then pos else NextDef(hist, i + 1, id)
      case _ => NextDef(hist, i + 1, id)
  }

  /** The definition that reference i means, or 0 while there is none. */
  function Meaning(hist: seq<Event>, i: nat): int
    requires i < |hist| && hist[i].Ref?
  {
    match hist[i].mode
    case Back => LastDef(hist, i, hist[i].id)
    case Fwd => NextDef(hist, i + 1, hist[i].id)
    case Any => if LastDef(hist, i, hist[i].id) != 0 then LastDef(hist, i, hist[i].id) else NextDef(hist, i + 1, hist[i].id)
  }

  ghost predicate Defs(hist: seq<Event>) {
    && (forall i | 0 <= i < |hist| && hist[i].Def? :: hist[i].pos > 0)
    && (forall i | 0 <= i < |hist| && hist[i].Ref? :: hist[i].pos > 0 && (hist[i].mode.Any? <==> !IsLocal(hist[i].id)))
    && (forall i, j | 0 <= i < j < |hist| && hist[i].Ref? && hist[j].Ref? :: hist[i].pos != hist[j].pos)
  }

  lemma {:induction false} LastDefSame(hist: seq<Event>, e: Event, i: nat, id: Id)
    requires i <= |hist|
    ensures LastDef(hist + [e], i, id) == LastDef(hist, i, id)
  {
    if i > 0 { LastDefSame(hist, e, i - 1, id); }
  }

  lemma {:induction false} NextDefMore(hist: seq<Event>, e: Event, i: nat, id: Id)
    requires i <= |hist| && Defs(hist)
    ensures NextDef(hist + [e], i, id) ==
      if NextDef(hist, i, id) != 0 then NextDef(hist, i, id) else if e.Def? && e.id == id then e.pos else 0
    decreases |hist| - i
  {
    if i < |hist| {
      NextDefMore(hist, e, i + 1, id);
    } else {
      assert NextDef(hist + [e], i + 1, id) == 0;
    }
  }

  /** A new event changes the meaning of pending references only. */
  lemma MeaningMore(hist: seq<Event>, e: Event, i: nat)
    requires i < |hist| && hist[i].Ref? && Defs(hist)
    ensures Meaning(hist, i) != 0 ==> Meaning(hist + [e], i) == Meaning(hist, i)
    ensures Meaning(hist, i) == 0 ==>
      Meaning(hist + [e], i) == if e.Def? && e.id == hist[i].id && !hist[i].mode.Back? then e.pos else 0
  {
    LastDefSame(hist, e, i, hist[i].id);
    NextDefMore(hist, e, i + 1, hist[i].id);
  }

  // ---- Chains ----------------------------------------------------------------------------

  /** The reference chain c, threaded through the words of b. */
  ghost predicate Threaded(b: map<int, int>, c: seq<int>) {
    && (forall k | 0 <= k < |c| :: c[k] > 0 && c[k] in b && b[c[k]] == NextLink(c, k + 1))
    && (forall k, l | 0 <= k < l < |c| :: c[k] != c[l])
  }

  function NextLink(c: seq<int>, k: nat): int {
    if k < |c| then c[k] else 0
  }

  ghost predicate PendingAt(hist: seq<Event>, i: nat) {
    i < |hist| && hist[i].Ref? && Meaning(hist, i) == 0
  }

  /** The reference at r is one of label id, and still pending. */
  ghost predicate PendingRef(hist: seq<Event>, id: Id, r: int) {
    exists i :: 0 <= i < |hist| && PendingAt(hist, i) && hist[i].id == id && hist[i].pos == r
  }

  datatype Links = Links(
    b: map<int, int>,             // the buffers
    head: map<Id, int>,           // lglabels and pclabels
    chain: map<Id, seq<int>>,     // the pending references of each label
    hist: seq<Event>)

  /** The word of a label: the head of its chain, or its position negated, or 0. */
  ghost predicate HeadOk(l: Links, id: Id)
    requires id in l.head && id in l.chain
  {
    var c := l.chain[id];
    && Threaded(l.b, c)
    && (if c == [] then l.head[id] == -LastDef(l.hist, |l.hist|, id) else l.head[id] == c[0])
    && (c != [] && !IsLocal(id) ==> LastDef(l.hist, |l.hist|, id) == 0)
    && (forall k | 0 <= k < |c| :: PendingRef(l.hist, id, c[k]))
  }

  /** A reference names the position of its label, or waits in the chain of it. */
  ghost predicate RefOk(l: Links, i: nat)
    requires i < |l.hist| && l.hist[i].Ref?
  {
    var e := l.hist[i];
    && e.pos in l.b && e.id in l.chain && (e.mode.Back? ==> Meaning(l.hist, i) != 0)
    && (if Meaning(l.hist, i) != 0 then l.b[e.pos] == Meaning(l.hist, i) else e.pos in l.chain[e.id])
  }

  /** Labels that were defined have a word. */
  ghost predicate Known(l: Links) {
    forall i | 0 <= i < |l.hist| && l.hist[i].Def? :: l.hist[i].id in l.head
  }

  ghost predicate LinksOk(l: Links) {
    && Defs(l.hist) && l.head.Keys == l.chain.Keys && Known(l)
    && (forall id <- l.head :: HeadOk(l, id))
    && (forall i | 0 <= i < |l.hist| && l.hist[i].Ref? :: RefOk(l, i))
  }

  /** Chains of different labels have no reference in common. */
  lemma ChainsApart(l: Links, id: Id, other: Id, r: int)
    requires LinksOk(l) && id in l.chain && other in l.chain && id != other && r in l.chain[id]
    ensures r !in l.chain[other]
  {
    assert HeadOk(l, id) && HeadOk(l, other);
    if r in l.chain[other] {
      OneLabel(l.hist, id, other, r);
    }
  }

  lemma OneLabel(hist: seq<Event>, id: Id, other: Id, r: int)
    requires Defs(hist) && PendingRef(hist, id, r) && PendingRef(hist, other, r)
    ensures id == other
  {
    var i :| 0 <= i < |hist| && PendingAt(hist, i) && hist[i].id == id && hist[i].pos == r;
    var j :| 0 <= j < |hist| && PendingAt(hist, j) && hist[j].id == other && hist[j].pos == r;
  }

  // ---- One more event ----------------------------------------------------------------------

  lemma LastDefEnd(hist: seq<Event>, e: Event, id: Id)
    ensures LastDef(hist + [e], |hist| + 1, id) ==
      if e.Def? && e.id == id then e.pos else if e.Reset? && IsLocal(id) then 0 else LastDef(hist, |hist|, id)
  {
    LastDefSame(hist, e, |hist|, id);
    assert (hist + [e])[|hist|] == e;
  }

  lemma {:induction false} NoNegative(hist: seq<Event>, i: nat, id: Id)
    requires Defs(hist) && i <= |hist|
    ensures LastDef(hist, i, id) >= 0
  {
    if i > 0 { NoNegative(hist, i - 1, id); }
  }

  lemma PendingStays(hist: seq<Event>, e: Event, id: Id, r: int)
    requires Defs(hist) && PendingRef(hist, id, r) && !(e.Def? && e.id == id)
    ensures PendingRef(hist + [e], id, r)
  {
    var i :| 0 <= i < |hist| && PendingAt(hist, i) && hist[i].id == id && hist[i].pos == r;
    MeaningMore(hist, e, i);
    assert PendingAt(hist + [e], i);
  }

  /** The label id, when the event is about something else. */
  lemma HeadStays(l: Links, l': Links, e: Event, id: Id)
    requires Defs(l.hist) && l'.hist == l.hist + [e] && id in l.head && id in l.chain && HeadOk(l, id)
    requires id in l'.head && id in l'.chain && l'.head[id] == l.head[id] && l'.chain[id] == l.chain[id]
    requires forall r <- l.chain[id] :: r in l.b && r in l'.b && l'.b[r] == l.b[r]
    requires !(e.Def? && e.id == id) && !(e.Reset? && IsLocal(id))
    ensures HeadOk(l', id)
  {
    LastDefEnd(l.hist, e, id);
    forall k | 0 <= k < |l.chain[id]| ensures PendingRef(l'.hist, id, l.chain[id][k]) {
      PendingStays(l.hist, e, id, l.chain[id][k]);
    }
  }

  /** Reference i, when the event is not the definition it waits for. */
  lemma RefStays(l: Links, l': Links, e: Event, i: nat)
    requires Defs(l.hist) && l'.hist == l.hist + [e] && i < |l.hist| && l.hist[i].Ref? && RefOk(l, i)
    requires l.hist[i].id in l'.chain && l.hist[i].pos in l'.b
    requires l.hist[i].pos in l.chain[l.hist[i].id] ==> l.hist[i].pos in l'.chain[l.hist[i].id]
    requires Meaning(l.hist, i) != 0 ==> l'.b[l.hist[i].pos] == l.b[l.hist[i].pos]
    requires Meaning(l.hist, i) == 0 ==> !(e.Def? && e.id == l.hist[i].id)
    ensures RefOk(l', i)
  {
    MeaningMore(l.hist, e, i);
  }

  lemma DefsMore(hist: seq<Event>, e: Event)
    requires Defs(hist) && (e.Def? ==> e.pos > 0)
    requires e.Ref? ==> e.pos > 0 && (e.mode.Any? <==> !IsLocal(e.id)) && NoRef(hist, e.pos)
    ensures Defs(hist + [e])
  {}

  /** Nobody waits at a position no reference has. */
  lemma NobodyWaits(l: Links, id: Id, pos: int)
    requires LinksOk(l) && id in l.head && NoRef(l.hist, pos)
    ensures pos !in l.chain[id]
  {
    assert HeadOk(l, id);
    forall k | 0 <= k < |l.chain[id]| ensures l.chain[id][k] != pos {
      NotHere(l.hist, id, l.chain[id][k], pos);
    }
  }

  lemma ChainThere(l: Links, id: Id)
    requires id in l.head && id in l.chain && HeadOk(l, id)
    ensures forall r <- l.chain[id] :: r in l.b && r > 0
  {}

  lemma NotHere(hist: seq<Event>, id: Id, r: int, pos: int)
    requires PendingRef(hist, id, r) && NoRef(hist, pos)
    ensures r != pos
  {}

  /** A position no reference has. */
  ghost predicate NoRef(hist: seq<Event>, pos: int) {
    forall i | 0 <= i < |hist| && hist[i].Ref? :: hist[i].pos != pos
  }

  /** Words other than those of references do not matter. */
  lemma OtherWord(l: Links, pos: int, v: int)
    requires LinksOk(l) && NoRef(l.hist, pos)
    ensures LinksOk(l.(b := l.b[pos := v]))
  {
    var l' := l.(b := l.b[pos := v]);
    forall id <- l'.head ensures HeadOk(l', id) {
      assert HeadOk(l, id);
      forall k | 0 <= k < |l.chain[id]| ensures l.chain[id][k] != pos {
        assert PendingRef(l.hist, id, l.chain[id][k]);
      }
    }
    forall i | 0 <= i < |l'.hist| && l'.hist[i].Ref? ensures RefOk(l', i) {
      assert RefOk(l, i);
    }
  }

  /** A reference to a label that exists already. */
  lemma ReferKnown(l: Links, id: Id, pos: int, mode: Mode)
    requires LinksOk(l) && NoRef(l.hist, pos) && pos > 0 && id in l.head && l.head[id] < 0 && !mode.Fwd?
    requires mode.Any? <==> !IsLocal(id)
    ensures LinksOk(l.(b := l.b[pos := -l.head[id]], hist := l.hist + [Ref(id, pos, mode)]))
  {
    hide Defs, Meaning, Threaded, HeadOk, RefOk;
    var e := Ref(id, pos, mode);
    var l' := l.(b := l.b[pos := -l.head[id]], hist := l.hist + [e]);
    DefsMore(l.hist, e);
    forall other <- l'.head ensures HeadOk(l', other) {
      assert HeadOk(l, other);
      NobodyWaits(l, other, pos);
      ChainThere(l, other);
      HeadStays(l, l', e, other);
    }
    forall i | 0 <= i < |l'.hist| && l'.hist[i].Ref? ensures RefOk(l', i) {
      assert HeadOk(l, id) && (i < |l.hist| ==> RefOk(l, i));
      KnownRef(l, l', id, pos, mode, i);
    }
  }

  lemma KnownRef(l: Links, l': Links, id: Id, pos: int, mode: Mode, i: nat)
    requires Defs(l.hist) && NoRef(l.hist, pos) && id in l.head && id in l.chain && HeadOk(l, id) && l.head[id] < 0 && !mode.Fwd?
    requires l' == l.(b := l.b[pos := -l.head[id]], hist := l.hist + [Ref(id, pos, mode)])
    requires i <= |l.hist| && (i < |l.hist| ==> l.hist[i].Ref? && RefOk(l, i))
    ensures RefOk(l', i)
  {
    hide HeadOk, Defs, Meaning, Threaded;
    if i < |l.hist| {
      RefStays(l, l', Ref(id, pos, mode), i);
    } else {
      KnownMeaning(l, id, pos, mode);
    }
  }

  lemma KnownMeaning(l: Links, id: Id, pos: int, mode: Mode)
    requires id in l.head && id in l.chain && HeadOk(l, id) && l.head[id] < 0 && !mode.Fwd?
    ensures Meaning(l.hist + [Ref(id, pos, mode)], |l.hist|) == -l.head[id]
  {
    LastDefSame(l.hist, Ref(id, pos, mode), |l.hist|, id);
  }

  /** A reference that joins the chain of its label. */
  lemma ReferLater(l: Links, id: Id, pos: int, mode: Mode)
    requires LinksOk(l) && NoRef(l.hist, pos) && pos > 0 && id in l.head && !mode.Back?
    requires mode.Any? <==> !IsLocal(id)
    requires mode.Any? ==> l.head[id] >= 0
    ensures LinksOk(Joined(l, id, pos, mode))
  {
    hide Defs, Meaning, Threaded, HeadOk, RefOk;
    var e, l' := Ref(id, pos, mode), Joined(l, id, pos, mode);
    DefsMore(l.hist, e);
    forall other <- l'.head ensures HeadOk(l', other) {
      assert HeadOk(l, other);
      NobodyWaits(l, other, pos);
      ChainThere(l, other);
      if other != id { HeadStays(l, l', e, other); } else { JoinedHead(l, id, pos, mode); }
    }
    forall i | 0 <= i < |l'.hist| && l'.hist[i].Ref? ensures RefOk(l', i) {
      assert HeadOk(l, id);
      assert i < |l.hist| ==> RefOk(l, i);
      JoinedRef(l, id, pos, mode, i);
    }
  }

  lemma JoinedRef(l: Links, id: Id, pos: int, mode: Mode, i: nat)
    requires Defs(l.hist) && NoRef(l.hist, pos) && id in l.head && id in l.chain && HeadOk(l, id) && !mode.Back?
    requires (mode.Any? <==> !IsLocal(id)) && (mode.Any? ==> l.head[id] >= 0)
    requires i <= |l.hist| && (i < |l.hist| ==> l.hist[i].Ref? && RefOk(l, i))
    ensures RefOk(Joined(l, id, pos, mode), i)
  {
    hide HeadOk, Defs, Meaning, Threaded;
    if i < |l.hist| {
      RefStays(l, Joined(l, id, pos, mode), Ref(id, pos, mode), i);
    } else {
      NewMeaning(l, id, pos, mode);
    }
  }

  ghost function Joined(l: Links, id: Id, pos: int, mode: Mode): Links
    requires id in l.head && id in l.chain
  {
    Links(l.b[pos := if l.head[id] < 0 then 0 else l.head[id]], l.head[id := pos],
          l.chain[id := [pos] + l.chain[id]], l.hist + [Ref(id, pos, mode)])
  }

  lemma NewMeaning(l: Links, id: Id, pos: int, mode: Mode)
    requires Defs(l.hist) && id in l.head && id in l.chain && HeadOk(l, id) && !mode.Back? && (mode.Any? <==> !IsLocal(id))
    requires mode.Any? ==> l.head[id] >= 0
    ensures Meaning(l.hist + [Ref(id, pos, mode)], |l.hist|) == 0
    ensures !IsLocal(id) ==> LastDef(l.hist, |l.hist|, id) == 0
  {
    NoNegative(l.hist, |l.hist|, id);
    LastDefSame(l.hist, Ref(id, pos, mode), |l.hist|, id);
  }

  lemma JoinedHead(l: Links, id: Id, pos: int, mode: Mode)
    requires Defs(l.hist) && id in l.head && id in l.chain && HeadOk(l, id) && pos !in l.chain[id] && pos > 0
    requires !mode.Back? && (mode.Any? <==> !IsLocal(id)) && (mode.Any? ==> l.head[id] >= 0)
    ensures HeadOk(Joined(l, id, pos, mode), id)
  {
    var e, c, l' := Ref(id, pos, mode), l.chain[id], Joined(l, id, pos, mode);
    NewMeaning(l, id, pos, mode);
    NoNegative(l.hist, |l.hist|, id);
    LastDefEnd(l.hist, e, id);
    HeadParts(l, id);
    hide HeadOk, Meaning, LastDef, Defs;
    ThreadMore(l.b, c, pos, l'.b);
    assert PendingAt(l'.hist, |l.hist|) by { IsPending(l', |l.hist|); }
    forall k | 0 <= k < |l'.chain[id]| ensures PendingRef(l'.hist, id, l'.chain[id][k]) {
      if k > 0 { PendingStays(l.hist, e, id, c[k - 1]); }
    }
    hide Threaded;
    HeadWhole(l', id);
  }

  lemma IsPending(l: Links, i: nat)
    requires i < |l.hist| && l.hist[i].Ref? && Meaning(l.hist, i) == 0
    ensures PendingAt(l.hist, i)
  {}

  lemma HeadParts(l: Links, id: Id)
    requires id in l.head && id in l.chain && HeadOk(l, id)
    ensures Threaded(l.b, l.chain[id]) && forall k | 0 <= k < |l.chain[id]| :: PendingRef(l.hist, id, l.chain[id][k])
    ensures if l.chain[id] == [] then l.head[id] == -LastDef(l.hist, |l.hist|, id) else l.head[id] == l.chain[id][0]
    ensures l.chain[id] != [] && !IsLocal(id) ==> LastDef(l.hist, |l.hist|, id) == 0
  {}

  lemma HeadWhole(l: Links, id: Id)
    requires id in l.head && id in l.chain && Threaded(l.b, l.chain[id])
    requires forall k | 0 <= k < |l.chain[id]| :: PendingRef(l.hist, id, l.chain[id][k])
    requires if l.chain[id] == [] then l.head[id] == -LastDef(l.hist, |l.hist|, id) else l.head[id] == l.chain[id][0]
    requires l.chain[id] != [] && !IsLocal(id) ==> LastDef(l.hist, |l.hist|, id) == 0
    ensures HeadOk(l, id)
  {}

  /** A new head in front of a chain. */
  lemma ThreadMore(b: map<int, int>, c: seq<int>, pos: int, b': map<int, int>)
    requires Threaded(b, c) && pos !in c && pos > 0 && b' == b[pos := NextLink(c, 0)]
    ensures Threaded(b', [pos] + c)
  {
    var c' := [pos] + c;
    forall k | 0 <= k < |c'| ensures c'[k] > 0 && c'[k] in b' && b'[c'[k]] == NextLink(c', k + 1) {
      if k > 0 { assert c'[k] == c[k - 1] && NextLink(c', k + 1) == NextLink(c, k); }
    }
  }

  /** The words of b after the references in c were pointed to pos. */
  function Collapse(b: map<int, int>, c: seq<int>, pos: int): map<int, int> {
    map r <- b :: if r in c then pos else b[r]
  }

  /** A definition: the chain of the label collapses, and the label word names the position. */
  lemma Define(l: Links, id: Id, pos: int)
    requires LinksOk(l) && NoRef(l.hist, pos) && pos > 0 && id in l.head && id in l.chain
    ensures LinksOk(Links(Collapse(l.b, l.chain[id], pos), l.head[id := -pos], l.chain[id := []], l.hist + [Def(id, pos)]))
  {
    var e, c := Def(id, pos), l.chain[id];
    var l' := Links(Collapse(l.b, c, pos), l.head[id := -pos], l.chain[id := []], l.hist + [e]);
    DefsMore(l.hist, e);
    forall other <- l'.head ensures HeadOk(l', other) {
      assert HeadOk(l, other);
      if other != id {
        forall r <- l.chain[other] ensures r !in c {
          if r in c { ChainsApart(l, id, other, r); }
        }
        HeadStays(l, l', e, other);
      } else {
        LastDefEnd(l.hist, e, id);
      }
    }
    forall i | 0 <= i < |l'.hist| && l'.hist[i].Ref? ensures RefOk(l', i) {
      assert RefOk(l, i) && HeadOk(l, id);
      DefinedRef(l, l', id, pos, i);
    }
  }

  lemma DefinedRef(l: Links, l': Links, id: Id, pos: int, i: nat)
    requires Defs(l.hist) && id in l.head && id in l.chain && HeadOk(l, id) && i < |l.hist| && l.hist[i].Ref? && RefOk(l, i)
    requires pos > 0
    requires l' == Links(Collapse(l.b, l.chain[id], pos), l.head[id := -pos], l.chain[id := []], l.hist + [Def(id, pos)])
    ensures RefOk(l', i)
  {
    hide HeadOk, Defs, Meaning, Threaded;
    var e := Def(id, pos);
    MeaningMore(l.hist, e, i);
    if Meaning(l.hist, i) != 0 {
      NotWaiting(l, id, i);
    }
  }

  lemma NotWaiting(l: Links, id: Id, i: nat)
    requires Defs(l.hist) && id in l.head && id in l.chain && HeadOk(l, id) && i < |l.hist| && l.hist[i].Ref?
    requires Meaning(l.hist, i) != 0
    ensures l.hist[i].pos !in l.chain[id]
  {
    forall k | 0 <= k < |l.chain[id]| ensures l.chain[id][k] != l.hist[i].pos {
      WaitsNot(l.hist, id, l.chain[id][k], i);
    }
  }

  lemma WaitsNot(hist: seq<Event>, id: Id, r: int, i: nat)
    requires Defs(hist) && PendingRef(hist, id, r) && i < |hist| && hist[i].Ref? && Meaning(hist, i) != 0
    ensures hist[i].pos != r
  {
    var j :| 0 <= j < |hist| && PendingAt(hist, j) && hist[j].id == id && hist[j].pos == r;
  }

  /** dasm_checkstep: no local is pending, and all are forgotten. */
  lemma Forget(l: Links, head: map<Id, int>)
    requires LinksOk(l) && head.Keys == l.head.Keys
    requires forall id <- head :: if IsLocal(id) then l.head[id] <= 0 && head[id] == 0 else head[id] == l.head[id]
    ensures LinksOk(l.(head := head, hist := l.hist + [Reset]))
  {
    var l' := l.(head := head, hist := l.hist + [Reset]);
    DefsMore(l.hist, Reset);
    forall id <- l'.head ensures HeadOk(l', id) {
      assert HeadOk(l, id);
      if IsLocal(id) { LastDefEnd(l.hist, Reset, id); } else { HeadStays(l, l', Reset, id); }
    }
    forall i | 0 <= i < |l'.hist| && l'.hist[i].Ref? ensures RefOk(l', i) {
      assert RefOk(l, i);
      RefStays(l, l', Reset, i);
    }
  }
}
