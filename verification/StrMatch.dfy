/** The backtracking pattern matcher. */
module StrMatch {
  import opened StrClass
  import opened StrPattern
  import opened StrCaptures

  const LJ_MAX_XLEVEL: nat := 200

  /** NULL, or the end of the match; or an error was thrown. */
  datatype Res = Found(end: nat) | Null | Error

  // ---- What the functions promise -------------------------------------------------------

  /** The best match of the items at s, or none; without one, the captures are as before. */
  ghost predicate Matched(m: Task, items: seq<Item>, s: nat, caps: seq<Capture>, r: Res, c: seq<nat>, caps': seq<Capture>) {
    match r
    case Found(e) => Best(m, items, s, c) && |c| == |items| && e == s + Sum(c) && caps' == Apply(items, c, s, caps)
    case Null => NoMatch(m, items, s) && caps' == caps
    case Error => true
  }

  /** The best repetition from s on is n, after which the rest matches best by c; or there is none. */
  ghost predicate Expanded(m: Task, x: Item, rest: seq<Item>, s: nat, caps: seq<Capture>, lazy: bool, r: Res, n: nat, c: seq<nat>, caps': seq<Capture>)
    requires x.Chars?
  {
    match r
    case Found(e) =>
      Run(m, x, s, n) && Matched(m, rest, s + n, caps, r, c, caps')
      && forall k: nat | Run(m, x, s, k) && (if lazy then k < n else k > n) :: NoMatch(m, rest, s + k)
    case Null => (forall k: nat | Run(m, x, s, k) :: NoMatch(m, rest, s + k)) && caps' == caps
    case Error => true
  }

  /** What matches items at s by c, matches items0 at s0 by cd + c. */
  ghost predicate Leads(m: Task, items0: seq<Item>, s0: nat, items: seq<Item>, s: nat, cd: seq<nat>) {
    && s == s0 + Sum(cd) && |items0| == |cd| + |items|
    && (NoMatch(m, items, s) ==> NoMatch(m, items0, s0))
    && (forall c | Best(m, items, s, c) :: Best(m, items0, s0, cd + c))
    && (forall c, caps | |c| == |items| :: Apply(items0, cd + c, s0, caps) == Apply(items, c, s, caps))
  }

  lemma LeadsAtOnce(m: Task, items: seq<Item>, s: nat)
    ensures Leads(m, items, s, items, s, [])
  {
    assert forall c: seq<nat> :: [] + c == c;
  }

  lemma {:induction false} SumOf(c: seq<nat>, d: seq<nat>)
    ensures Sum(c + d) == Sum(c) + Sum(d)
    decreases |c|
  {
    if c == [] {
      assert c + d == d;
    } else {
      assert (c + d)[1..] == c[1..] + d;
      SumOf(c[1..], d);
    }
  }

  /** The item matches n characters, and it is settled that this is best. */
  lemma LeadsOn(m: Task, items0: seq<Item>, s0: nat, x: Item, rest: seq<Item>, s: nat, cd: seq<nat>, n: nat)
    requires Leads(m, items0, s0, [x] + rest, s, cd) && x.Chars? && FitsItem(m, x, s, n)
    requires forall k | FitsItem(m, x, s, k) && k != n :: NoMatch(m, rest, s + k)
    ensures Leads(m, items0, s0, rest, s + n, cd + [n])
  {
    hide Fits, FitsItem;
    SumOf(cd, [n]);
    if NoMatch(m, rest, s + n) {
      NoneFront(m, x, rest, s);
    }
    forall c | Best(m, rest, s + n, c) ensures Best(m, items0, s0, cd + [n] + c) {
      BestFront(m, x, rest, s, n, c);
      assert cd + ([n] + c) == cd + [n] + c;
    }
    forall c, caps | |c| == |rest| ensures Apply(items0, cd + [n] + c, s0, caps) == Apply(rest, c, s + n, caps) {
      assert cd + ([n] + c) == cd + [n] + c;
      assert ([x] + rest)[1..] == rest && ([n] + c)[1..] == c;
      assert Apply([x] + rest, [n] + c, s, caps) == Apply(rest, c, s + n, caps);
    }
  }

  lemma LeadsTo(m: Task, items0: seq<Item>, s0: nat, items: seq<Item>, s: nat, cd: seq<nat>, caps: seq<Capture>, r: Res, c: seq<nat>, caps': seq<Capture>)
    requires Leads(m, items0, s0, items, s, cd) && Matched(m, items, s, caps, r, c, caps')
    ensures Matched(m, items0, s0, caps, r, cd + c, caps')
  {
    hide Fits;
    SumOf(cd, c);
  }

  lemma ErrorMatched(m: Task, items: seq<Item>, s: nat, caps: seq<Capture>, c: seq<nat>, caps': seq<Capture>)
    ensures Matched(m, items, s, caps, Error, c, caps')
  {}

  lemma EmptyMatched(m: Task, s: nat, caps: seq<Capture>)
    ensures Matched(m, [], s, caps, Found(s), [], caps)
  {
    assert Fits(m, [], s, []);
  }

  lemma EndMatched(m: Task, s: nat, caps: seq<Capture>)
    ensures Matched(m, [AtEnd], s, caps, if s == |m.src| then Found(s) else Null, [0], caps)
  {
    FitsFront(m, AtEnd, [], s, 0, []);
    assert [AtEnd] + [] == [AtEnd] && [0] + [] == [0];
    assert Apply([AtEnd], [0], s, caps) == Apply([], [], s, caps);
    if s == |m.src| {
      EmptyMatched(m, s, caps);
      BestFront(m, AtEnd, [], s, 0, []);
    } else {
      NoneFront(m, AtEnd, [], s);
    }
  }

  /** A capture starts or ends. */
  lemma CaptureMatched(m: Task, x: Item, rest: seq<Item>, s: nat, caps: seq<Capture>, now: seq<Capture>, r: Res, c: seq<nat>, caps': seq<Capture>)
    requires (x.Open? && now == Opened(caps, s, x.position)) || (x.Close? && now == Closed(caps, s))
    requires Matched(m, rest, s, now, r, c, caps')
    ensures Matched(m, [x] + rest, s, caps, r, [0] + c, if r.Null? then caps else caps')
  {
    hide Fits;
    if r.Found? {
      BestFront(m, x, rest, s, 0, c);
      FitsFront(m, x, rest, s, 0, c);
      assert ([x] + rest)[1..] == rest && ([0] + c)[1..] == c;
    } else if r.Null? {
      NoneFront(m, x, rest, s);
    }
  }

  /** A repeated item, from the outcome of its expansion at s, or at s + 1 after one match. */
  lemma StarMatched(m: Task, x: Item, rest: seq<Item>, s: nat, caps: seq<Capture>, r: Res, n: nat, c: seq<nat>, caps': seq<Capture>)
    requires x.Chars? && (x.rep == Star || x.rep == Lazy) && Expanded(m, x, rest, s, caps, x.rep == Lazy, r, n, c, caps')
    ensures Matched(m, [x] + rest, s, caps, r, [n] + c, caps')
  {
    hide Fits, Run;
    if r.Found? {
      BestFront(m, x, rest, s, n, c);
      FitsFront(m, x, rest, s, n, c);
      assert ([x] + rest)[1..] == rest && ([n] + c)[1..] == c;
    } else if r.Null? {
      NoneFront(m, x, rest, s);
    }
  }

  lemma PlusMatched(m: Task, x: Item, rest: seq<Item>, s: nat, caps: seq<Capture>, r: Res, n: nat, c: seq<nat>, caps': seq<Capture>)
    requires x.Chars? && x.rep == Plus && Run(m, x, s, 1) && Expanded(m, x, rest, s + 1, caps, false, r, n, c, caps')
    ensures Matched(m, [x] + rest, s, caps, r, [n + 1] + c, caps')
  {
    hide Fits;
    if r.Found? {
      forall k: nat | FitsItem(m, x, s, k) && k != n + 1 && !Prefers(x, n + 1, k) ensures NoMatch(m, rest, s + k) {
        OneMore(m, x, s, k - 1);
        assert NoMatch(m, rest, s + 1 + (k - 1));
      }
      OneMore(m, x, s, n);
      BestFront(m, x, rest, s, n + 1, c);
      FitsFront(m, x, rest, s, n + 1, c);
      assert ([x] + rest)[1..] == rest && ([n + 1] + c)[1..] == c;
    } else if r.Null? {
      forall k: nat | FitsItem(m, x, s, k) ensures NoMatch(m, rest, s + k) {
        OneMore(m, x, s, k - 1);
        assert NoMatch(m, rest, s + 1 + (k - 1));
      }
      NoneFront(m, x, rest, s);
    }
  }

  lemma OneMore(m: Task, x: Item, s: nat, k: nat)
    requires x.Chars? && Run(m, x, s, 1)
    ensures Run(m, x, s, k + 1) <==> Run(m, x, s + 1, k)
  {
    assert Single(m.pat, x.p, x.ep, m.src[s]);
    if Run(m, x, s + 1, k) {
      forall i | s <= i < s + (k + 1) ensures Single(m.pat, x.p, x.ep, m.src[i]) {
        assert i > s ==> s + 1 <= i < s + 1 + k;
      }
    }
  }

  lemma NoPlus(m: Task, x: Item, rest: seq<Item>, s: nat, caps: seq<Capture>)
    requires x.Chars? && (x.rep == Plus || x.rep == Once) && !Run(m, x, s, 1)
    ensures Matched(m, [x] + rest, s, caps, Null, [], caps)
  {
    hide Fits;
    NoneFront(m, x, rest, s);
  }

  lemma OptMatched(m: Task, x: Item, rest: seq<Item>, s: nat, caps: seq<Capture>, r: Res, c: seq<nat>, caps': seq<Capture>)
    requires x.Chars? && x.rep == Opt && Run(m, x, s, 1) && Matched(m, rest, s + 1, caps, r, c, caps') && r.Found?
    ensures Matched(m, [x] + rest, s, caps, r, [1] + c, caps')
  {
    hide Fits;
    BestFront(m, x, rest, s, 1, c);
    FitsFront(m, x, rest, s, 1, c);
    assert ([x] + rest)[1..] == rest && ([1] + c)[1..] == c;
  }

  /** What match does for a well-formed pattern: it fails only if calls nest too deeply. */
  ghost predicate Promise(m: Task, p: nat, s: nat, caps: seq<Capture>, depth: nat, r: Res, c: seq<nat>, caps': seq<Capture>)
    requires p <= |m.pat|
  {
    Items(m.pat, p).Some? && Ready(Items(m.pat, p).value, caps, s) ==>
      Matched(m, Items(m.pat, p).value, s, caps, r, c, caps') && (r.Error? ==> depth + Depth(Items(m.pat, p).value) > LJ_MAX_XLEVEL)
  }

  class MatchState {
    const src: seq<byte>
    const pat: seq<byte>
    var level: nat
    var depth: nat
    const capture: array<Capture>

    constructor (src: seq<byte>, pat: seq<byte>)
      ensures Valid() && this.src == src && this.pat == pat && level == 0 && depth == 0 && fresh(capture)
    {
      this.src, this.pat, level, depth := src, pat, 0, 0;
      capture := new Capture[LUA_MAXCAPTURES](_ => Capture(0, 0));
    }

    ghost predicate Valid()
      reads this`level
    {
      capture.Length == LUA_MAXCAPTURES && level <= LUA_MAXCAPTURES
    }

    ghost function M(): Task {
      Task(src, pat)
    }

    ghost function Caps(): seq<Capture>
      requires Valid()
      reads this`level, capture
    {
      capture[..level]
    }

    /** capture_to_close: -1 for its error */
    method CaptureToClose() returns (l: int)
      requires Valid()
      ensures l == ToClose(Caps())
    {
      l := level - 1;
      assert capture[..level][..l + 1] == capture[..level];
      while l >= 0 && capture[l].len != CAP_UNFINISHED
        invariant -1 <= l < level && ToClose(capture[..l + 1]) == ToClose(Caps())
      {
        assert capture[..l + 1][..l] == capture[..l];
        l := l - 1;
      }
      if l >= 0 {
        assert capture[..l + 1][l] == capture[l];
      }
    }

    /** start_capture */
    method StartCapture(s: nat, p: nat, what: int) returns (r: Res, ghost c: seq<nat>)
      requires Valid() && s <= |src| && p <= |pat| && (what == CAP_POSITION || what == CAP_UNFINISHED)
      modifies this`level, this`depth, capture
      ensures Valid() && (!r.Error? ==> depth == old(depth)) && (r.Null? ==> Caps() == old(Caps())) && (r.Found? ==> r.end <= |src|)
      ensures old(level) < LUA_MAXCAPTURES ==>
        Promise(M(), p, s, Opened(old(Caps()), s, what == CAP_POSITION), old(depth), r, c, if r.Null? then Opened(old(Caps()), s, what == CAP_POSITION) else Caps())
      decreases |pat| - p, 5
    {
      c := [];
      if level >= LUA_MAXCAPTURES {
        return Error, c;
      }
      capture[level] := Capture(s, what);
      level := level + 1;
      assert Caps() == Opened(old(Caps()), s, what == CAP_POSITION);
      r, c := Match(s, p);
      if r.Null? {
        ghost var caps := Caps();
        level := level - 1;
        assert Caps() == caps[..|caps| - 1];
      }
    }

    /** end_capture */
    method EndCapture(s: nat, p: nat) returns (r: Res, ghost c: seq<nat>)
      requires Valid() && s <= |src| && p <= |pat|
      modifies this`level, this`depth, capture
      ensures Valid() && (!r.Error? ==> depth == old(depth)) && (r.Null? ==> Caps() == old(Caps())) && (r.Found? ==> r.end <= |src|)
      ensures ToClose(old(Caps())) >= 0 ==>
        Promise(M(), p, s, Closed(old(Caps()), s), old(depth), r, c, if r.Null? then Closed(old(Caps()), s) else Caps())
      decreases |pat| - p, 5
    {
      c := [];
      var l := CaptureToClose();
      if l < 0 {
        return Error, c;
      }
      capture[l] := Capture(capture[l].init, s - capture[l].init);
      assert Caps() == Closed(old(Caps()), s);
      r, c := Match(s, p);
      if r.Null? {
        ghost var caps := Caps();
        capture[l] := Capture(capture[l].init, CAP_UNFINISHED);
        assert Caps() == caps[l := Capture(caps[l].init, CAP_UNFINISHED)] == old(Caps());
      }
    }

    /** The cases of match that start or end a capture. */
    method CaptureItem(s: nat, p: nat, ghost items: seq<Item>) returns (r: Res, ghost c: seq<nat>)
      requires Valid() && s <= |src| && p <= |pat| && (At(pat, p) == OPEN || At(pat, p) == CLOSE)
      modifies this`level, this`depth, capture
      ensures Valid() && (!r.Error? ==> depth == old(depth)) && (r.Null? ==> Caps() == old(Caps())) && (r.Found? ==> r.end <= |src|)
      ensures Items(pat, p) == Some(items) && Ready(items, old(Caps()), s) ==> Done(M(), items, s, old(Caps()), old(depth), r, c, Caps())
      decreases |pat| - p, 2
    {
      hide Matched, Ready, Depth, Apply, Items, Opened, Closed, ToClose, Promise, Done;
      ghost var caps := Caps();
      ghost var wf := Items(pat, p) == Some(items) && Ready(items, caps, s);
      if At(pat, p) == OPEN {
        OpenParsed(pat, p, items, caps, s);
        ghost var now := Opened(caps, s, At(pat, p + 1) == CLOSE);
        if At(pat, p + 1) == CLOSE {
          r, c := StartCapture(s, p + 2, CAP_POSITION);
          if wf {
            CaptureDone(M(), p + 2, items[0], items[1..], s, caps, now, old(depth), r, c, Caps());
          }
        } else {
          r, c := StartCapture(s, p + 1, CAP_UNFINISHED);
          if wf {
            CaptureDone(M(), p + 1, items[0], items[1..], s, caps, now, old(depth), r, c, Caps());
          }
        }
      } else {
        CloseParsed(pat, p, items, caps, s);
        r, c := EndCapture(s, p + 1);
        if wf {
          CaptureDone(M(), p + 1, items[0], items[1..], s, caps, Closed(caps, s), old(depth), r, c, Caps());
        }
      }
      c := [0] + c;
    }

    /** The cases of match for an item that is repeated, other than an optional one. */
    method RepeatedItem(s: nat, p: nat, ep: nat, m: bool, ghost x: Item, ghost rest: seq<Item>) returns (r: Res, ghost c: seq<nat>)
      requires Valid() && s <= |src| && ep + 1 <= |pat| && p < ep && x == Chars(p, ep, RepAt(pat, ep)) && (m <==> Run(M(), x, s, 1)) && (m ==> s < |src|)
      requires At(pat, ep) == STAR || At(pat, ep) == PLUS || At(pat, ep) == MINUS
      modifies this`level, this`depth, capture
      ensures Valid() && (!r.Error? ==> depth == old(depth)) && (r.Null? ==> Caps() == old(Caps())) && (r.Found? ==> r.end <= |src|)
      ensures Items(pat, ep + 1) == Some(rest) && Ready(rest, old(Caps()), s) ==> Done(M(), [x] + rest, s, old(Caps()), old(depth), r, c, Caps())
      decreases |pat| - p, 2
    {
      hide Matched, Ready, Apply, Items, MatchState.Caps, Expanded;
      ghost var caps := Caps();
      ghost var n;
      assert ([x] + rest)[1..] == rest;
      if At(pat, ep) == STAR {
        r, n, c := MaxExpand(s, p, ep, x);
        if Items(pat, ep + 1) == Some(rest) && Ready(rest, caps, s) {
          StarMatched(M(), x, rest, s, caps, r, n, c, Caps());
        }
        c := [n] + c;
      } else if At(pat, ep) == PLUS {
        if m {
          ReadyLater(pat, ep + 1, caps, s, s + 1);
          r, n, c := MaxExpand(s + 1, p, ep, x);
          if Items(pat, ep + 1) == Some(rest) && Ready(rest, caps, s) {
            PlusMatched(M(), x, rest, s, caps, r, n, c, Caps());
          }
          c := [n + 1] + c;
        } else {
          NoPlus(M(), x, rest, s, caps);
          r, c := Null, [];
        }
      } else {
        r, n, c := MinExpand(s, p, ep, x);
        if Items(pat, ep + 1) == Some(rest) && Ready(rest, caps, s) {
          StarMatched(M(), x, rest, s, caps, r, n, c, Caps());
        }
        c := [n] + c;
      }
    }

    /** The default case of match, an item of the pattern that is not special: the match goes on behind
        it, or is done. */
    method PatternItem(s: nat, p: nat, ghost items0: seq<Item>, ghost s0: nat, ghost items: seq<Item>, ghost cd: seq<nat>)
      returns (again: bool, s1: nat, p1: nat, r: Res, ghost c: seq<nat>, ghost items1: seq<Item>, ghost cd1: seq<nat>)
      requires Valid() && s <= |src| && p < |pat| && At(pat, p) != 0 && At(pat, p) != OPEN && At(pat, p) != CLOSE && !Special(pat, p)
      requires !(At(pat, p) == DOLLAR && At(pat, p + 1) == 0)
      modifies this`level, this`depth, capture
      ensures Valid() && (again || !r.Error? ==> depth == old(depth)) && (again || r.Null? ==> Caps() == old(Caps())) && (!again && r.Found? ==> r.end <= |src|)
      ensures again ==> p < p1 <= |pat| && s1 <= |src| && c == []
      ensures again && Going(M(), items0, s0, p, items, s, cd, old(Caps())) ==> Going(M(), items0, s0, p1, items1, s1, cd1, old(Caps()))
      ensures !again && Going(M(), items0, s0, p, items, s, cd, old(Caps())) ==> Done(M(), items, s, old(Caps()), old(depth), r, c, Caps())
      decreases |pat| - p, 3
    {
      hide Matched, Ready, Single, Leads, Depth, Apply, Items, MatchState.Caps, ClassEnd, Special, Run, NoMatch, Done, Going;
      ghost var caps := Caps();
      ghost var wf := Going(M(), items0, s0, p, items, s, cd, caps);
      GoingMeans(M(), items0, s0, p, items, s, cd, caps);
      again, s1, p1, r, c, items1, cd1 := false, s, p, Null, [], items, cd;
      var ok, ep := FindClassEnd(pat, p);
      if !ok {
        NotParsed(pat, p);
        r := Error;
        return;
      }
      var m := false;
      if s < |src| {
        m := SingleMatch(src[s], pat, p, ep);
      }
      ghost var x := Chars(p, ep, RepAt(pat, ep));
      CharsParsed(pat, p, items, caps, s);
      OneChar(M(), x, s);
      ghost var rest := if items == [] then [] else items[1..];
      if At(pat, ep) == QUESTION {
        if m {
          r, c := Match(s + 1, ep + 1);
          NextMeans(M(), ep + 1, s, s + 1, caps, old(depth), r, c, Caps());
          if !r.Null? {
            OptTaken(M(), x, rest, s, caps, old(depth), r, c, Caps());
            c := [1] + c;
            return;
          }
        }
        if wf {
          OptSkips(M(), items0, s0, p, items, s, cd, caps);
        }
        again, p1, items1, cd1, c := true, ep + 1, rest, cd + [0], [];
      } else if At(pat, ep) == STAR || At(pat, ep) == PLUS || At(pat, ep) == MINUS {
        r, c := RepeatedItem(s, p, ep, m, x, rest);
      } else if m {
        if wf {
          OnceTakes(M(), items0, s0, p, items, s, cd, caps);
        }
        again, s1, p1, items1, cd1 := true, s + 1, ep, rest, cd + [1];
      } else {
        NoPlus(M(), x, rest, s, caps);
        DoneNow(M(), [x] + rest, s, caps, depth, r, c, caps);
      }
    }

    /** match */
    method Match(s0: nat, p0: nat) returns (r: Res, ghost c: seq<nat>)
      requires Valid() && s0 <= |src| && p0 <= |pat|
      modifies this`level, this`depth, capture
      ensures Valid() && (!r.Error? ==> depth == old(depth)) && (r.Null? ==> Caps() == old(Caps())) && (r.Found? ==> r.end <= |src|)
      ensures Promise(M(), p0, s0, old(Caps()), old(depth), r, c, Caps())
      decreases |pat| - p0, 4
    {
      hide Matched, Ready, Single, Leads, Depth, Apply, Items, MatchState.Caps, ClassEnd, Special, Run, NoMatch, Done, Going;
      c := [];
      ghost var caps := Caps();
      ghost var parsed := Items(pat, p0);
      ghost var items0 := if parsed.Some? then parsed.value else [];
      ghost var wf := parsed.Some? && Ready(items0, caps, s0);
      depth := depth + 1;
      if depth > LJ_MAX_XLEVEL {
        AtLeastOne(items0);
        ErrorMatched(M(), items0, s0, caps, c, Caps());
        return Error, c;
      }
      var s: nat, p: nat := s0, p0;
      ghost var cd: seq<nat> := [];
      ghost var items := items0;
      if wf {
        GoingAtOnce(M(), p, items, s, caps);
      }
      while true
        invariant Valid() && s <= |src| && p0 <= p <= |pat| && depth == old(depth) + 1 && Caps() == caps && c == []
        invariant wf ==> Going(M(), items0, s0, p, items, s, cd, caps)
        decreases |pat| - p
      {
        GoingMeans(M(), items0, s0, p, items, s, cd, caps);
        if At(pat, p) == 0 {
          EndOfPattern(M(), p, s, caps);
          r := Found(s);
          DoneNow(M(), items, s, caps, depth, r, c, caps);
          break;
        } else if At(pat, p) == OPEN || At(pat, p) == CLOSE {
          r, c := CaptureItem(s, p, items);
          break;
        } else if Special(pat, p) {
          NotParsed(pat, p);
          return Error, c;
        } else if At(pat, p) == DOLLAR && At(pat, p + 1) == 0 {
          EndParsed(M(), p, s, caps);
          r := if s != |src| then Null else Found(s);
          c := [0];
          DoneNow(M(), items, s, caps, depth, r, c, caps);
          break;
        }
        ghost var items1, cd1;
        var again, s1, p1;
        again, s1, p1, r, c, items1, cd1 := PatternItem(s, p, items0, s0, items, cd);
        if !again {
          break;
        }
        s, p, items, cd := s1, p1, items1, cd1;
      }
      if wf {
        DoneMeans(M(), items0, s0, p, items, s, cd, caps, old(depth) + 1, r, c, Caps());
      }
      c := cd + c;
      if !r.Error? {
        depth := depth - 1;
      }
    }

    /** max_expand */
    method MaxExpand(s: nat, p: nat, ep: nat, ghost x: Item) returns (r: Res, ghost n: nat, ghost c: seq<nat>)
      requires Valid() && s <= |src| && ep + 1 <= |pat| && p < ep && x.Chars? && x.p == p && x.ep == ep
      modifies this`level, this`depth, capture
      ensures Valid() && (!r.Error? ==> depth == old(depth)) && (r.Null? ==> Caps() == old(Caps())) && (r.Found? ==> r.end <= |src|)
      ensures Items(pat, ep + 1).Some? && Ready(Items(pat, ep + 1).value, old(Caps()), s) ==>
        Expanded(M(), x, Items(pat, ep + 1).value, s, old(Caps()), false, r, n, c, Caps())
        && (r.Error? ==> old(depth) + Depth(Items(pat, ep + 1).value) > LJ_MAX_XLEVEL)
      decreases |pat| - p, 1
    {
      hide Items, Matched, Ready, Single;
      var i := 0;
      n, c := 0, [];
      while s + i < |src|
        invariant 0 <= i && s + i <= |src| && Run(M(), x, s, i)
        invariant n == 0 && c == []
        modifies {}
      {
        var more := SingleMatch(src[s + i], pat, p, ep);
        if !more {
          break;
        }
        i := i + 1;
      }
      ghost var caps := Caps();
      assert forall k: nat | Run(M(), x, s, k) :: k <= i;
      while i >= 0
        invariant Valid() && -1 <= i && s + i <= |src| && depth == old(depth) && Caps() == caps && (i >= 0 ==> Run(M(), x, s, i))
        invariant Items(pat, ep + 1).Some? && Ready(Items(pat, ep + 1).value, caps, s) ==>
          forall k: nat | Run(M(), x, s, k) && k > i :: NoMatch(M(), Items(pat, ep + 1).value, s + k)
        decreases i
      {
        ReadyLater(pat, ep + 1, caps, s, s + i);
        r, c := Match(s + i, ep + 1);
        if !r.Null? {
          n := i;
          ExpandedAt(M(), x, ep + 1, s, caps, false, old(depth), r, n, c, Caps());
          return;
        }
        NullMeans(M(), ep + 1, s + i, caps, old(depth), r, c, Caps());
        if i > 0 {
          RunShorter(M(), x, s, i);
        }
        i := i - 1;
      }
      r := Null;
    }

    /** min_expand */
    method MinExpand(s0: nat, p: nat, ep: nat, ghost x: Item) returns (r: Res, ghost n: nat, ghost c: seq<nat>)
      requires Valid() && s0 <= |src| && ep + 1 <= |pat| && p < ep && x.Chars? && x.p == p && x.ep == ep
      modifies this`level, this`depth, capture
      ensures Valid() && (!r.Error? ==> depth == old(depth)) && (r.Null? ==> Caps() == old(Caps())) && (r.Found? ==> r.end <= |src|)
      ensures Items(pat, ep + 1).Some? && Ready(Items(pat, ep + 1).value, old(Caps()), s0) ==>
        Expanded(M(), x, Items(pat, ep + 1).value, s0, old(Caps()), true, r, n, c, Caps())
        && (r.Error? ==> old(depth) + Depth(Items(pat, ep + 1).value) > LJ_MAX_XLEVEL)
      decreases |pat| - p, 1
    {
      hide Items, Matched, Ready, Single;
      var s := s0;
      n, c := 0, [];
      ghost var caps := Caps();
      while true
        invariant Valid() && s0 <= s <= |src| && depth == old(depth) && Caps() == caps && Run(M(), x, s0, s - s0)
        invariant Items(pat, ep + 1).Some? && Ready(Items(pat, ep + 1).value, caps, s0) ==>
          forall k: nat | Run(M(), x, s0, k) && k < s - s0 :: NoMatch(M(), Items(pat, ep + 1).value, s0 + k)
        decreases |src| - s
      {
        ReadyLater(pat, ep + 1, caps, s0, s);
        n := s - s0;
        r, c := Match(s, ep + 1);
        if !r.Null? {
          ExpandedAt(M(), x, ep + 1, s0, caps, true, old(depth), r, n, c, Caps());
          return;
        }
        NullMeans(M(), ep + 1, s, caps, old(depth), r, c, Caps());
        var more := false;
        if s < |src| {
          more := SingleMatch(src[s], pat, p, ep);
        }
        if more {
          s := s + 1;
        } else {
          NoLongerRun(M(), x, s0, s - s0);
          return Null, n, c;
        }
      }
    }

    /** The search of str_find_aux: the first position from init on at which the pattern matches, or
        only init if the pattern begins with '^'. */
    method Find(init: nat) returns (found: bool, s1: nat, e: nat, error: bool, ghost c: seq<nat>)
      requires Valid() && init <= |src|
      modifies this`level, this`depth, capture
      ensures Valid()
      ensures var p := if At(pat, 0) == CARET then 1 else 0; var parsed := Items(pat, p);
        parsed.Some? && Ready(parsed.value, [], 0) ==>
          && (error ==> Depth(parsed.value) > LJ_MAX_XLEVEL)
          && (!error && found ==> init <= s1 <= |src| && (At(pat, 0) == CARET ==> s1 == init) && e == s1 + Sum(c))
          && (!error && found ==> Best(M(), parsed.value, s1, c) && |c| == |parsed.value| && Caps() == Apply(parsed.value, c, s1, []))
          && (!error && found ==> CapturesAre(parsed.value, c, s1, |parsed.value|, Caps()))
          && (!error && found ==> forall s | init <= s < s1 :: NoMatch(M(), parsed.value, s))
          && (!error && !found ==> forall s | init <= s <= (if At(pat, 0) == CARET then init else |src|) :: NoMatch(M(), parsed.value, s))
    {
      hide Matched, Items, Depth, Apply, Best, NoMatch, MatchState.Caps, CapturesAre;
      var anchor := At(pat, 0) == CARET;
      var p := if anchor then 1 else 0;
      ghost var parsed := Items(pat, p);
      s1, error, found, c, e := init, false, false, [], 0;
      while true
        invariant Valid() && init <= s1 <= |src| && !error && (anchor ==> s1 == init)
        invariant parsed.Some? && Ready(parsed.value, [], 0) ==> forall s | init <= s < s1 :: NoMatch(M(), parsed.value, s)
        decreases |src| - s1
      {
        level, depth := 0, 0;
        NoCaps();
        ReadyLater(pat, p, [], 0, s1);
        var r;
        r, c := Match(s1, p);
        MatchedMeans(M(), p, s1, 0, r, c, Caps());
        if parsed.Some? && |c| == |parsed.value| {
          CapturesOf(parsed.value, c, s1);
        }
        match r {
          case Error => return false, s1, 0, true, c;
          case Found(end) => return true, s1, end, false, c;
          case Null =>
        }
        if !(s1 < |src| && !anchor) {
          break;
        }
        s1 := s1 + 1;
      }
    }

    lemma NoCaps()
      requires Valid() && level == 0
      ensures Caps() == []
    {}
  }

  lemma MatchedMeans(m: Task, p: nat, s: nat, depth: nat, r: Res, c: seq<nat>, caps': seq<Capture>)
    requires p <= |m.pat| && Promise(m, p, s, [], depth, r, c, caps')
    ensures Items(m.pat, p).Some? && Ready(Items(m.pat, p).value, [], s) ==> match r
      case Found(e) => Best(m, Items(m.pat, p).value, s, c) && |c| == |Items(m.pat, p).value| && e == s + Sum(c) && caps' == Apply(Items(m.pat, p).value, c, s, [])
      case Null => NoMatch(m, Items(m.pat, p).value, s)
      case Error => depth + Depth(Items(m.pat, p).value) > LJ_MAX_XLEVEL
  {
    hide Items, Ready;
  }

  /** What holds when a call of match, the one at this depth, is done with the items at hand. */
  ghost predicate Done(m: Task, items: seq<Item>, s: nat, caps: seq<Capture>, depth: int, r: Res, c: seq<nat>, caps': seq<Capture>) {
    Matched(m, items, s, caps, r, c, caps') && (r.Error? ==> depth - 1 + Depth(items) > LJ_MAX_XLEVEL)
  }

  lemma DoneNow(m: Task, items: seq<Item>, s: nat, caps: seq<Capture>, depth: int, r: Res, c: seq<nat>, caps': seq<Capture>)
    requires !r.Error?
    ensures Matched(m, items, s, caps, r, c, caps') ==> Done(m, items, s, caps, depth, r, c, caps')
  {}

  /** The state of the loop in match: what matches the items at hand, matches those at the start. */
  ghost predicate Going(m: Task, items0: seq<Item>, s0: nat, p: nat, items: seq<Item>, s: nat, cd: seq<nat>, caps: seq<Capture>) {
    && p <= |m.pat| && Items(m.pat, p) == Some(items) && Ready(items, caps, s)
    && Leads(m, items0, s0, items, s, cd) && Depth(items) <= Depth(items0)
  }

  lemma GoingAtOnce(m: Task, p: nat, items: seq<Item>, s: nat, caps: seq<Capture>)
    requires p <= |m.pat| && Items(m.pat, p) == Some(items) && Ready(items, caps, s)
    ensures Going(m, items, s, p, items, s, [], caps)
  {
    hide Items, Ready, Leads;
    LeadsAtOnce(m, items, s);
  }

  lemma GoingMeans(m: Task, items0: seq<Item>, s0: nat, p: nat, items: seq<Item>, s: nat, cd: seq<nat>, caps: seq<Capture>)
    ensures Going(m, items0, s0, p, items, s, cd, caps) ==> p <= |m.pat| && Items(m.pat, p) == Some(items) && Ready(items, caps, s)
  {}

  lemma DoneMeans(m: Task, items0: seq<Item>, s0: nat, p: nat, items: seq<Item>, s: nat, cd: seq<nat>, caps: seq<Capture>, depth: int, r: Res, c: seq<nat>, caps': seq<Capture>)
    requires Going(m, items0, s0, p, items, s, cd, caps) && Done(m, items, s, caps, depth, r, c, caps')
    ensures Matched(m, items0, s0, caps, r, cd + c, caps') && (r.Error? ==> depth - 1 + Depth(items0) > LJ_MAX_XLEVEL)
  {
    hide Leads, Matched, Depth, Items, Ready;
    LeadsTo(m, items0, s0, items, s, cd, caps, r, c, caps');
  }

  lemma OptSkips(m: Task, items0: seq<Item>, s0: nat, p: nat, items: seq<Item>, s: nat, cd: seq<nat>, caps: seq<Capture>)
    requires Going(m, items0, s0, p, items, s, cd, caps) && items != [] && items[0].Chars? && items[0].rep == Opt && s <= |m.src|
    requires Run(m, items[0], s, 1) ==> NoMatch(m, items[1..], s + 1)
    requires items[0].ep + 1 <= |m.pat| && Items(m.pat, items[0].ep + 1) == Some(items[1..]) && Ready(items[1..], caps, s) && Depth(items[1..]) <= Depth(items)
    ensures Going(m, items0, s0, items[0].ep + 1, items[1..], s, cd + [0], caps)
  {
    hide Leads, NoMatch, Items, Ready, Depth;
    assert items == [items[0]] + items[1..];
    LeadsOn(m, items0, s0, items[0], items[1..], s, cd, 0);
  }

  lemma OnceTakes(m: Task, items0: seq<Item>, s0: nat, p: nat, items: seq<Item>, s: nat, cd: seq<nat>, caps: seq<Capture>)
    requires Going(m, items0, s0, p, items, s, cd, caps) && items != [] && items[0].Chars? && items[0].rep == Once && Run(m, items[0], s, 1)
    requires items[0].ep <= |m.pat| && Items(m.pat, items[0].ep) == Some(items[1..]) && Ready(items[1..], caps, s) && Depth(items[1..]) <= Depth(items)
    ensures Going(m, items0, s0, items[0].ep, items[1..], s + 1, cd + [1], caps)
  {
    hide Leads, NoMatch, Run, Items, Ready, Depth;
    assert items == [items[0]] + items[1..];
    LeadsOn(m, items0, s0, items[0], items[1..], s, cd, 1);
    ReadyLater(m.pat, items[0].ep, caps, s, s + 1);
  }

  /** An optional item was there, and the rest matched after it, or failed. */
  lemma OptTaken(m: Task, x: Item, rest: seq<Item>, s: nat, caps: seq<Capture>, depth: int, r: Res, c: seq<nat>, caps': seq<Capture>)
    requires x.Chars? && x.rep == Opt && Run(m, x, s, 1) && !r.Null?
    ensures Matched(m, rest, s + 1, caps, r, c, caps') && (r.Error? ==> depth + Depth(rest) > LJ_MAX_XLEVEL)
      ==> Done(m, [x] + rest, s, caps, depth, r, [1] + c, caps')
  {
    if Matched(m, rest, s + 1, caps, r, c, caps') && r.Found? {
      OptMatched(m, x, rest, s, caps, r, c, caps');
    }
    hide Apply, Best;
    assert ([x] + rest)[1..] == rest;
  }

  // ---- Items of the pattern at hand ----------------------------------------------------------

  lemma {:induction false} AtLeastOne(items: seq<Item>)
    ensures Depth(items) >= 1
    decreases |items|
  {
    if items != [] {
      AtLeastOne(items[1..]);
    }
  }

  lemma EndOfPattern(m: Task, p: nat, s: nat, caps: seq<Capture>)
    requires p <= |m.pat| && At(m.pat, p) == 0
    ensures Items(m.pat, p) == Some([]) && Matched(m, [], s, caps, Found(s), [], caps)
  {
    EmptyMatched(m, s, caps);
  }

  lemma EndParsed(m: Task, p: nat, s: nat, caps: seq<Capture>)
    requires p <= |m.pat| && At(m.pat, p) == DOLLAR && At(m.pat, p + 1) == 0
    ensures Items(m.pat, p) == Some([AtEnd]) && Matched(m, [AtEnd], s, caps, if s != |m.src| then Null else Found(s), [0], caps)
  {
    EndMatched(m, s, caps);
  }

  lemma NotParsed(pat: seq<byte>, p: nat)
    requires p <= |pat| && At(pat, p) != 0 && At(pat, p) != OPEN && At(pat, p) != CLOSE
    requires Special(pat, p) || (!(At(pat, p) == DOLLAR && At(pat, p + 1) == 0) && ClassEnd(pat, p).None?)
    ensures Items(pat, p).None?
  {}

  lemma OpenParsed(pat: seq<byte>, p: nat, items: seq<Item>, caps: seq<Capture>, s: nat)
    requires p <= |pat| && At(pat, p) == OPEN
    ensures var q := if At(pat, p + 1) == CLOSE then p + 2 else p + 1;
      q <= |pat| && (Items(pat, p) == Some(items) && Ready(items, caps, s) ==>
        items != [] && items[0] == Open(At(pat, p + 1) == CLOSE) && Items(pat, q) == Some(items[1..]) && |caps| < LUA_MAXCAPTURES
        && Ready(items[1..], Opened(caps, s, items[0].position), s) && items == [items[0]] + items[1..])
  {
    if Items(pat, p) == Some(items) && Ready(items, caps, s) {
      assert items == [items[0]] + items[1..];
      ReadyOpen(items[0], items[1..], caps, s);
    }
  }

  lemma CloseParsed(pat: seq<byte>, p: nat, items: seq<Item>, caps: seq<Capture>, s: nat)
    requires p <= |pat| && At(pat, p) == CLOSE
    ensures p + 1 <= |pat| && (Items(pat, p) == Some(items) && Ready(items, caps, s) ==>
        items != [] && items[0] == Close && Items(pat, p + 1) == Some(items[1..]) && ToClose(caps) >= 0
        && Ready(items[1..], Closed(caps, s), s) && items == [items[0]] + items[1..])
  {
    if Items(pat, p) == Some(items) && Ready(items, caps, s) {
      assert items == [items[0]] + items[1..];
      ReadyClose(items[0], items[1..], caps, s);
    }
  }

  lemma CharsParsed(pat: seq<byte>, p: nat, items: seq<Item>, caps: seq<Capture>, s: nat)
    requires p <= |pat| && At(pat, p) != 0 && At(pat, p) != OPEN && At(pat, p) != CLOSE && !Special(pat, p)
    requires !(At(pat, p) == DOLLAR && At(pat, p + 1) == 0) && ClassEnd(pat, p).Some?
    ensures var ep := ClassEnd(pat, p).value; var rep := RepAt(pat, ep); var q := if rep == Once then ep else ep + 1;
      q <= |pat| && (Items(pat, p) == Some(items) && Ready(items, caps, s) ==>
        items != [] && items == [Chars(p, ep, rep)] + items[1..] && Items(pat, q) == Some(items[1..]) && Ready(items[1..], caps, s)
        && Depth(items) == (if rep == Once then 0 else 1) + Depth(items[1..]))
  {
    if Items(pat, p) == Some(items) && Ready(items, caps, s) {
      assert items == [items[0]] + items[1..];
      ReadyChars(items[0], items[1..], caps, s, s);
    }
  }

  /** After the rest of a capture's start or end. */
  lemma CaptureDone(m: Task, p: nat, x: Item, rest: seq<Item>, s: nat, caps: seq<Capture>, now: seq<Capture>, depth: nat, r: Res, c: seq<nat>, caps': seq<Capture>)
    requires (x.Open? && now == Opened(caps, s, x.position)) || (x.Close? && now == Closed(caps, s))
    requires p <= |m.pat| && Items(m.pat, p) == Some(rest) && Ready(rest, now, s)
    requires Promise(m, p, s, now, depth, r, c, if r.Null? then now else caps') && (r.Null? ==> caps' == caps)
    ensures Done(m, [x] + rest, s, caps, depth, r, [0] + c, caps')
  {
    hide Items, Ready, Matched;
    CaptureMatched(m, x, rest, s, caps, now, r, c, if r.Null? then now else caps');
    assert ([x] + rest)[1..] == rest;
  }

  lemma OneChar(m: Task, x: Item, s: nat)
    requires x.Chars?
    ensures Run(m, x, s, 1) <==> s < |m.src| && Single(m.pat, x.p, x.ep, m.src[s])
  {
    if s < |m.src| && Single(m.pat, x.p, x.ep, m.src[s]) {
      forall k | s <= k < s + 1 ensures Single(m.pat, x.p, x.ep, m.src[k]) {
        assert k == s;
      }
    }
    if Run(m, x, s, 1) {
      assert s <= s < s + 1;
    }
  }

  /** What a call for the rest means, from one character on. */
  lemma NextMeans(m: Task, p: nat, s: nat, s': nat, caps: seq<Capture>, depth: nat, r: Res, c: seq<nat>, caps': seq<Capture>)
    requires p <= |m.pat| && s <= s' && Promise(m, p, s', caps, depth, r, c, caps')
    ensures Items(m.pat, p).Some? && Ready(Items(m.pat, p).value, caps, s) ==>
      Matched(m, Items(m.pat, p).value, s', caps, r, c, caps') && (r.Null? ==> NoMatch(m, Items(m.pat, p).value, s'))
      && (r.Error? ==> depth + Depth(Items(m.pat, p).value) > LJ_MAX_XLEVEL)
  {
    hide Items, Ready;
    ReadyLater(m.pat, p, caps, s, s');
  }

  lemma ReadyLater(pat: seq<byte>, p: nat, caps: seq<Capture>, s: nat, s': nat)
    requires p <= |pat| && s <= s'
    ensures Items(pat, p).Some? && Ready(Items(pat, p).value, caps, s) ==> Ready(Items(pat, p).value, caps, s')
  {
    hide Items;
  }

  lemma NullMeans(m: Task, p: nat, s: nat, caps: seq<Capture>, depth: nat, r: Res, c: seq<nat>, caps': seq<Capture>)
    requires p <= |m.pat| && Promise(m, p, s, caps, depth, r, c, caps') && r.Null?
    ensures Items(m.pat, p).Some? && Ready(Items(m.pat, p).value, caps, s) ==> NoMatch(m, Items(m.pat, p).value, s)
  {
    hide Items, Ready;
  }

  lemma ExpandedAt(m: Task, x: Item, p: nat, s: nat, caps: seq<Capture>, lazy: bool, depth: nat, r: Res, n: nat, c: seq<nat>, caps': seq<Capture>)
    requires x.Chars? && Run(m, x, s, n) && p <= |m.pat| && !r.Null?
    requires Promise(m, p, s + n, caps, depth, r, c, caps')
    requires Items(m.pat, p).Some? && Ready(Items(m.pat, p).value, caps, s) ==>
      forall k: nat | Run(m, x, s, k) && (if lazy then k < n else k > n) :: NoMatch(m, Items(m.pat, p).value, s + k)
    ensures Items(m.pat, p).Some? && Ready(Items(m.pat, p).value, caps, s) ==> Expanded(m, x, Items(m.pat, p).value, s, caps, lazy, r, n, c, caps')
  {
    hide Items, Ready, Matched;
    ReadyLater(m.pat, p, caps, s, s + n);
  }

  lemma RunShorter(m: Task, x: Item, s: nat, n: nat)
    requires x.Chars? && Run(m, x, s, n) && n > 0
    ensures Run(m, x, s, n - 1)
  {}

  lemma NoLongerRun(m: Task, x: Item, s: nat, n: nat)
    requires x.Chars? && Run(m, x, s, n) && (s + n == |m.src| || !Single(m.pat, x.p, x.ep, m.src[s + n]))
    ensures forall k: nat | Run(m, x, s, k) :: k <= n
  {
    assert s + n < |m.src| ==> !Single(m.pat, x.p, x.ep, m.src[s + n]);
  }
}
