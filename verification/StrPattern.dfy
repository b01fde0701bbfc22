/** Lua patterns as sequences of items, and what it means to match one. */
module StrPattern {
  import opened StrClass

  datatype Rep = Once | Opt | Star | Plus | Lazy

  /** An item: a class from p to ep of the pattern with its repetition, a capture's start or end, or the
      end of the subject. */
  datatype Item = Chars(p: nat, ep: nat, rep: Rep) | Open(position: bool) | Close | AtEnd

  const OPEN: byte := 40          // '('
  const CLOSE: byte := 41         // ')'
  const DOLLAR: byte := 36        // '$'
  const QUESTION: byte := 63      // '?'
  const STAR: byte := 42          // '*'
  const PLUS: byte := 43          // '+'
  const MINUS: byte := 45         // '-'

  function RepAt(pat: seq<byte>, ep: nat): Rep {
    match At(pat, ep)
    case 63 => Opt
    case 42 => Star
    case 43 => Plus
    case 45 => Lazy
    case _ => Once
  }

  /** Balanced strings, frontiers and back-references. */
  predicate Special(pat: seq<byte>, p: nat) {
    At(pat, p) == L_ESC && (At(pat, p + 1) == 98 || At(pat, p + 1) == 102 || IsDigit(At(pat, p + 1)))
  }

  /** The items of a pattern from p on, if it is well formed and has no special ones. */
  function Items(pat: seq<byte>, p: nat): Option<seq<Item>>
    requires p <= |pat|
    decreases |pat| - p
  {
    var c := At(pat, p);
    if c == 0 then Some([])
    else if c == OPEN then
      var position := At(pat, p + 1) == CLOSE;
      Front(Open(position), Items(pat, if position then p + 2 else p + 1))
    else if c == CLOSE then Front(Close, Items(pat, p + 1))
    else if Special(pat, p) then None
    else if c == DOLLAR && At(pat, p + 1) == 0 then Some([AtEnd])
    else if ClassEnd(pat, p).None? then None
    else
      var ep := ClassEnd(pat, p).value;
      var rep := RepAt(pat, ep);
      Front(Chars(p, ep, rep), Items(pat, if rep == Once then ep else ep + 1))
  }

  function Front(x: Item, rest: Option<seq<Item>>): Option<seq<Item>> {
    if rest.None? then None else Some([x] + rest.value)
  }

  // ---- Matches ---------------------------------------------------------------------------

  /** A subject and a pattern. */
  datatype Task = Task(src: seq<byte>, pat: seq<byte>)

  /** n characters from s on are in the class. */
  predicate Run(m: Task, x: Item, s: nat, n: nat)
    requires x.Chars?
  {
    s + n <= |m.src| && forall k | s <= k < s + n :: Single(m.pat, x.p, x.ep, m.src[k])
  }

  predicate Allowed(rep: Rep, n: nat) {
    match rep
    case Once => n == 1
    case Opt => n <= 1
    case Star => true
    case Plus => n >= 1
    case Lazy => true
  }

  /** An item matches n characters at s. */
  predicate FitsItem(m: Task, x: Item, s: nat, n: nat) {
    match x
    case Chars(_, _, rep) => Allowed(rep, n) && Run(m, x, s, n)
    case Open(_) => n == 0
    case Close => n == 0
    case AtEnd => n == 0 && s == |m.src|
  }

  /** The choice c says how many characters each item matches, and they do. */
  predicate Fits(m: Task, items: seq<Item>, s: nat, c: seq<nat>)
    decreases |items|
  {
    if items == [] then c == []
    else c != [] && FitsItem(m, items[0], s, c[0]) && Fits(m, items[1..], s + c[0], c[1..])
  }

  function Sum(c: seq<nat>): nat {
    if c == [] then 0 else c[0] + Sum(c[1..])
  }

  /** Which of two repetitions an item prefers: the longer one, unless it is lazy. */
  predicate Prefers(x: Item, a: nat, b: nat) {
    x.Chars? && (if x.rep == Lazy then a < b else a > b)
  }

  /** The first choice that differs decides. */
  predicate Better(items: seq<Item>, c: seq<nat>, d: seq<nat>)
    decreases |items|
  {
    items != [] && c != [] && d != []
    && (if c[0] == d[0] then Better(items[1..], c[1..], d[1..]) else Prefers(items[0], c[0], d[0]))
  }

  /** The match that the pattern asks for. */
  ghost predicate Best(m: Task, items: seq<Item>, s: nat, c: seq<nat>) {
    Fits(m, items, s, c) && forall d | Fits(m, items, s, d) && d != c :: Better(items, c, d)
  }

  ghost predicate NoMatch(m: Task, items: seq<Item>, s: nat) {
    forall d :: !Fits(m, items, s, d)
  }

  /** There is at most one such match. */
  lemma BestUnique(m: Task, items: seq<Item>, s: nat, c: seq<nat>, d: seq<nat>)
    requires Best(m, items, s, c) && Best(m, items, s, d)
    ensures c == d
  {
    if c != d {
      NotBothBetter(items, c, d);
    }
  }

  lemma {:induction false} NotBothBetter(items: seq<Item>, c: seq<nat>, d: seq<nat>)
    ensures !(Better(items, c, d) && Better(items, d, c))
    decreases |items|
  {
    if items != [] && c != [] && d != [] {
      NotBothBetter(items[1..], c[1..], d[1..]);
    }
  }

  /** A match of an item and one of the rest. */
  lemma FitsFront(m: Task, x: Item, rest: seq<Item>, s: nat, n: nat, c: seq<nat>)
    ensures Fits(m, [x] + rest, s, [n] + c) <==> FitsItem(m, x, s, n) && Fits(m, rest, s + n, c)
    ensures Sum([n] + c) == n + Sum(c)
  {
    assert ([x] + rest)[1..] == rest && ([n] + c)[1..] == c;
  }

  lemma FitsSplit(m: Task, x: Item, rest: seq<Item>, s: nat, d: seq<nat>)
    requires Fits(m, [x] + rest, s, d)
    ensures d != [] && FitsItem(m, x, s, d[0]) && Fits(m, rest, s + d[0], d[1..]) && d == [d[0]] + d[1..]
  {
    assert ([x] + rest)[1..] == rest;
  }

  /** The best match begins with the repetition that the item prefers most, of those after which the
      rest matches. */
  lemma BestFront(m: Task, x: Item, rest: seq<Item>, s: nat, n: nat, c: seq<nat>)
    requires FitsItem(m, x, s, n) && Best(m, rest, s + n, c)
    requires forall k | FitsItem(m, x, s, k) && k != n && !Prefers(x, n, k) :: NoMatch(m, rest, s + k)
    ensures Best(m, [x] + rest, s, [n] + c)
  {
    FitsFront(m, x, rest, s, n, c);
    forall d | Fits(m, [x] + rest, s, d) && d != [n] + c ensures Better([x] + rest, [n] + c, d) {
      FitsSplit(m, x, rest, s, d);
      assert ([x] + rest)[1..] == rest && ([n] + c)[1..] == c;
      assert !NoMatch(m, rest, s + d[0]);
    }
  }

  lemma NoneFront(m: Task, x: Item, rest: seq<Item>, s: nat)
    requires forall k | FitsItem(m, x, s, k) :: NoMatch(m, rest, s + k)
    ensures NoMatch(m, [x] + rest, s)
  {
    forall d ensures !Fits(m, [x] + rest, s, d) {
      if Fits(m, [x] + rest, s, d) {
        FitsSplit(m, x, rest, s, d);
      }
    }
  }

  /** On its own, an item with '-' matches nothing, and any other as many characters as it can. */
  lemma Longest(m: Task, x: Item, s: nat, n: nat)
    requires x.Chars? && Best(m, [x], s, [n])
    ensures FitsItem(m, x, s, n) && (x.rep.Lazy? ==> n == 0) && (!x.rep.Lazy? ==> forall k: nat | FitsItem(m, x, s, k) :: k <= n)
  {
    FitsSplit(m, x, [], s, [n]);
    assert x.rep.Lazy? ==> FitsItem(m, x, s, 0);
    forall k: nat | FitsItem(m, x, s, k) && k != n ensures Prefers(x, n, k) {
      FitsFront(m, x, [], s, k, []);
      assert Fits(m, [x] + [], s, [k] + []) && [x] + [] == [x] && [k] + [] == [k];
      assert Better([x], [n], [k]);
    }
  }

  // ---- Captures --------------------------------------------------------------------------

  const CAP_UNFINISHED: int := -1
  const CAP_POSITION: int := -2
  const LUA_MAXCAPTURES: nat := 32

  datatype Capture = Capture(init: nat, len: int)

  function Unfinished(caps: seq<Capture>): nat {
    if caps == [] then 0 else Unfinished(caps[..|caps| - 1]) + (if caps[|caps| - 1].len == CAP_UNFINISHED then 1 else 0)
  }

  /** The last unfinished capture, or -1. */
  function ToClose(caps: seq<Capture>): (l: int)
    ensures -1 <= l < |caps| && (l >= 0 ==> caps[l].len == CAP_UNFINISHED)
    ensures l == -1 <==> Unfinished(caps) == 0
    ensures forall k | l < k < |caps| :: caps[k].len != CAP_UNFINISHED
  {
    if caps == [] then -1
    else if caps[|caps| - 1].len == CAP_UNFINISHED then |caps| - 1
    else ToClose(caps[..|caps| - 1])
  }

  function Closed(caps: seq<Capture>, s: nat): seq<Capture> {
    var l := ToClose(caps);
    if l == -1 then caps else caps[l := Capture(caps[l].init, s - caps[l].init)]
  }

  function Opened(caps: seq<Capture>, s: nat, position: bool): seq<Capture> {
    caps + [Capture(s, if position then CAP_POSITION else CAP_UNFINISHED)]
  }

  /** The captures of a match. */
  function Apply(items: seq<Item>, c: seq<nat>, s: nat, caps: seq<Capture>): seq<Capture>
    requires |c| == |items|
    decreases |items|
  {
    if items == [] then caps
    else
      var now := match items[0]
        case Open(position) => Opened(caps, s, position)
        case Close => Closed(caps, s)
        case _ => caps;
      Apply(items[1..], c[1..], s + c[0], now)
  }

  /** Every end of a capture has a start, and there is room for all of them. */
  predicate Nested(items: seq<Item>, level: nat, open: nat)
    decreases |items|
  {
    items == [] ||
    match items[0]
    case Open(position) => level < LUA_MAXCAPTURES && Nested(items[1..], level + 1, if position then open else open + 1)
    case Close => open > 0 && Nested(items[1..], level, open - 1)
    case _ => Nested(items[1..], level, open)
  }

  /** The pattern can go on with these captures. */
  predicate Ready(items: seq<Item>, caps: seq<Capture>, s: nat) {
    Nested(items, |caps|, Unfinished(caps)) && forall k | 0 <= k < |caps| :: caps[k].init <= s
  }

  /** How deep calls of match nest. */
  function Depth(items: seq<Item>): nat {
    if items == [] then 1
    else if items[0] == AtEnd || (items[0].Chars? && items[0].rep == Once) then Depth(items[1..])
    else 1 + Depth(items[1..])
  }

  lemma UnfinishedOpened(caps: seq<Capture>, s: nat, position: bool)
    ensures Unfinished(Opened(caps, s, position)) == Unfinished(caps) + (if position then 0 else 1)
  {
    var more := Opened(caps, s, position);
    assert more[..|more| - 1] == caps;
  }

  lemma {:induction false} UnfinishedClosed(caps: seq<Capture>, s: nat)
    requires Unfinished(caps) > 0 && forall k | 0 <= k < |caps| :: caps[k].init <= s
    ensures Unfinished(Closed(caps, s)) == Unfinished(caps) - 1 && |Closed(caps, s)| == |caps|
    decreases |caps|
  {
    var n := |caps| - 1;
    if caps[n].len == CAP_UNFINISHED {
      assert Closed(caps, s)[..n] == caps[..n];
    } else {
      UnfinishedClosed(caps[..n], s);
      assert Closed(caps, s)[..n] == Closed(caps[..n], s);
    }
  }

  lemma ReadyOpen(x: Item, rest: seq<Item>, caps: seq<Capture>, s: nat)
    requires Ready([x] + rest, caps, s) && x.Open?
    ensures |caps| < LUA_MAXCAPTURES && Ready(rest, Opened(caps, s, x.position), s)
  {
    assert ([x] + rest)[1..] == rest;
    UnfinishedOpened(caps, s, x.position);
  }

  lemma ReadyClose(x: Item, rest: seq<Item>, caps: seq<Capture>, s: nat)
    requires Ready([x] + rest, caps, s) && x.Close?
    ensures ToClose(caps) >= 0 && Ready(rest, Closed(caps, s), s)
  {
    assert ([x] + rest)[1..] == rest;
    UnfinishedClosed(caps, s);
  }

  lemma ReadyChars(x: Item, rest: seq<Item>, caps: seq<Capture>, s: nat, s': nat)
    requires Ready([x] + rest, caps, s) && x.Chars? && s <= s'
    ensures Ready(rest, caps, s')
  {
    assert ([x] + rest)[1..] == rest;
  }
}
