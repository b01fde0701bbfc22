/** Which characters a single-character class of a Lua pattern matches (section 5.4.1 of the Lua 5.1
    Reference Manual). A pattern is a byte string that a zero ends. */
module StrClass {

  type byte = x: int | 0 <= x < 256

  const L_ESC: byte := 37         // '%'
  const SET: byte := 91           // '['
  const SET_END: byte := 93       // ']'
  const CARET: byte := 94         // '^'
  const DASH: byte := 45          // '-'
  const DOT: byte := 46           // '.'

  /** *p: a zero follows the pattern. */
  function At(pat: seq<byte>, p: nat): byte {
    if p < |pat| then pat[p] else 0
  }

  // ---- Character types --------------------------------------------------------------------

  predicate IsCntrl(c: byte) { c < 32 || c == 127 }
  predicate IsSpace(c: byte) { 9 <= c <= 13 || c == 32 }
  predicate IsDigit(c: byte) { 48 <= c <= 57 }
  predicate IsUpper(c: byte) { 65 <= c <= 90 }
  predicate IsLower(c: byte) { 97 <= c <= 122 }
  predicate IsXdigit(c: byte) { IsDigit(c) || 65 <= c <= 70 || 97 <= c <= 102 }
  predicate IsPunct(c: byte) { 33 <= c <= 126 && !IsDigit(c) && !IsUpper(c) && !IsLower(c) }
  predicate IsAlpha(c: byte) { IsUpper(c) || IsLower(c) }
  predicate IsAlnum(c: byte) { IsAlpha(c) || IsDigit(c) }

  datatype Option<+T> = None | Some(value: T)

  /** The character type of a class letter, whatever its case: the entries of match_class_map. */
  function Typed(c: byte, letter: byte): Option<bool> {
    match letter % 32
    case 1 => Some(IsAlpha(c))
    case 3 => Some(IsCntrl(c))
    case 4 => Some(IsDigit(c))
    case 7 => Some(IsAlnum(c) || IsPunct(c))
    case 12 => Some(IsLower(c))
    case 16 => Some(IsPunct(c))
    case 19 => Some(IsSpace(c))
    case 21 => Some(IsUpper(c))
    case 23 => Some(IsAlnum(c))
    case 24 => Some(IsXdigit(c))
    case _ => None
  }

  /** match_class */
  predicate MatchClass(c: byte, cl: byte) {
    if 64 <= cl < 128 && Typed(c, cl).Some? then (cl / 32 % 2 == 1) == Typed(c, cl).value
    else if cl == 122 then c == 0
    else if cl == 90 then c != 0
    else cl == c
  }

  predicate IsClassLetter(cl: byte) {
    cl == 122 || cl == 90 || (IsAlpha(cl) && Typed(0, cl).Some?)
  }

  /** The upper case letter of a class stands for the complement; other characters for themselves. */
  lemma Complement(c: byte, cl: byte)
    ensures IsLower(cl) && IsClassLetter(cl) ==> (MatchClass(c, cl - 32) <==> !MatchClass(c, cl))
    ensures !IsClassLetter(cl) ==> (MatchClass(c, cl) <==> c == cl)
  {}

  predicate From(c: byte, lo: char, hi: char) {
    lo as int <= c <= hi as int
  }

  /** The class letters, in terms of ASCII: what each lower case letter of a class matches. */
  lemma Letters(c: byte)
    ensures MatchClass(c, 'a' as int) <==> From(c, 'a', 'z') || From(c, 'A', 'Z')
    ensures MatchClass(c, 'c' as int) <==> c < 32 || c == 127
    ensures MatchClass(c, 'd' as int) <==> From(c, '0', '9')
    ensures MatchClass(c, 'g' as int) <==> From(c, '!', '~')
    ensures MatchClass(c, 'l' as int) <==> From(c, 'a', 'z')
    ensures MatchClass(c, 'p' as int) <==> From(c, '!', '/') || From(c, ':', '@') || From(c, '[', '`') || From(c, '{', '~')
    ensures MatchClass(c, 's' as int) <==> From(c, '\t', '\r') || c == ' ' as int
    ensures MatchClass(c, 'u' as int) <==> From(c, 'A', 'Z')
    ensures MatchClass(c, 'w' as int) <==> From(c, 'a', 'z') || From(c, 'A', 'Z') || From(c, '0', '9')
    ensures MatchClass(c, 'x' as int) <==> From(c, '0', '9') || From(c, 'a', 'f') || From(c, 'A', 'F')
    ensures MatchClass(c, 'z' as int) <==> c == 0
    ensures MatchClass(c, '%' as int) <==> c == '%' as int
  {}

  // ---- Where a class ends -------------------------------------------------------------------

  /** The end of a set, from a character of it that does not end it. */
  function BracketEnd(pat: seq<byte>, q: nat): (ep: Option<nat>)
    requires q <= |pat|
    ensures ep.Some? ==> q + 2 <= ep.value <= |pat| && At(pat, ep.value - 1) == SET_END
    decreases |pat| - q
  {
    if At(pat, q) == 0 then None
    else
      var q1 := q + 1;
      var q2 := if At(pat, q) == L_ESC && At(pat, q1) != 0 then q1 + 1 else q1;
      if At(pat, q2) == SET_END then Some(q2 + 1) else BracketEnd(pat, q2)
  }

  /** classend; None stands for its errors. */
  function ClassEnd(pat: seq<byte>, p: nat): (ep: Option<nat>)
    requires p < |pat| && At(pat, p) != 0
    ensures ep.Some? ==> p < ep.value <= |pat|
  {
    if At(pat, p) == L_ESC then (if At(pat, p + 1) == 0 then None else Some(p + 2))
    else if At(pat, p) == SET then BracketEnd(pat, if At(pat, p + 1) == CARET then p + 2 else p + 1)
    else Some(p + 1)
  }

  method FindClassEnd(pat: seq<byte>, p0: nat) returns (ok: bool, p: nat)
    requires p0 < |pat| && At(pat, p0) != 0
    ensures ok <==> ClassEnd(pat, p0).Some?
    ensures ok ==> p == ClassEnd(pat, p0).value
  {
    var first := At(pat, p0);
    p := p0 + 1;
    if first == L_ESC {
      if At(pat, p) == 0 {
        return false, p;
      }
      return true, p + 1;
    }
    if first == SET {
      if At(pat, p) == CARET {
        p := p + 1;
      }
      ghost var q := p;
      while true
        invariant p <= |pat| && BracketEnd(pat, q) == BracketEnd(pat, p)
        decreases |pat| - p
      {
        var c := At(pat, p);
        if c == 0 {
          return false, p;
        }
        p := p + 1;
        if c == L_ESC && At(pat, p) != 0 {
          p := p + 1;
        }
        if At(pat, p) == SET_END {
          return true, p + 1;
        }
      }
    }
    ok := true;
  }

  // ---- Sets ---------------------------------------------------------------------------------

  /** What a set lists. */
  datatype Elem = Class(letter: byte) | Range(lo: byte, hi: byte)

  predicate InElem(c: byte, x: Elem) {
    match x
    case Class(letter) => MatchClass(c, letter)
    case Range(lo, hi) => lo <= c <= hi
  }

  /** The elements of a set, up to its end at ec. */
  function Elems(pat: seq<byte>, p: nat, ec: nat): seq<Elem>
    decreases ec - p
  {
    if p >= ec then []
    else if At(pat, p) == L_ESC then [Class(At(pat, p + 1))] + Elems(pat, p + 2, ec)
    else if At(pat, p + 1) == DASH && p + 2 < ec then [Range(At(pat, p), At(pat, p + 2))] + Elems(pat, p + 3, ec)
    else [Range(At(pat, p), At(pat, p))] + Elems(pat, p + 1, ec)
  }

  predicate Hits(c: byte, es: seq<Elem>) {
    exists x <- es :: InElem(c, x)
  }

  /** A character is in a set if one of its elements matches, or none for a complement. */
  predicate InSet(pat: seq<byte>, p: nat, ec: nat, c: byte) {
    var negated := At(pat, p + 1) == CARET;
    negated != Hits(c, Elems(pat, if negated then p + 2 else p + 1, ec))
  }

  /** matchbracketclass */
  method MatchBracketClass(c: byte, pat: seq<byte>, p0: nat, ec: nat) returns (r: bool)
    ensures r == InSet(pat, p0, ec, c)
  {
    hide MatchClass, Hits;
    var sig, p := true, p0;
    if At(pat, p + 1) == CARET {
      sig := false;
      p := p + 1;
    }
    ghost var all := Elems(pat, p + 1, ec);
    ghost var done: seq<Elem> := [];
    NoneHits(c);
    p := p + 1;
    while p < ec
      invariant all == done + Elems(pat, p, ec)
      invariant !Hits(c, done)
      decreases ec - p
    {
      if At(pat, p) == L_ESC {
        p := p + 1;
        ListsNext(c, all, done, Class(At(pat, p)), Elems(pat, p + 1, ec));
        if MatchClass(c, At(pat, p)) {
          return sig;
        }
        done := done + [Class(At(pat, p))];
      } else if At(pat, p + 1) == DASH && p + 2 < ec {
        p := p + 2;
        ListsNext(c, all, done, Range(At(pat, p - 2), At(pat, p)), Elems(pat, p + 1, ec));
        if At(pat, p - 2) <= c && c <= At(pat, p) {
          return sig;
        }
        done := done + [Range(At(pat, p - 2), At(pat, p))];
      } else {
        ListsNext(c, all, done, Range(At(pat, p), At(pat, p)), Elems(pat, p + 1, ec));
        if At(pat, p) == c {
          return sig;
        }
        done := done + [Range(At(pat, p), At(pat, p))];
      }
      p := p + 1;
    }
    assert all == done;
    r := !sig;
  }

  lemma NoneHits(c: byte)
    ensures !Hits(c, [])
  {}

  lemma ListsNext(c: byte, all: seq<Elem>, done: seq<Elem>, x: Elem, rest: seq<Elem>)
    requires all == done + ([x] + rest)
    ensures all == (done + [x]) + rest
    ensures InElem(c, x) ==> Hits(c, all)
    ensures Hits(c, done + [x]) <==> Hits(c, done) || InElem(c, x)
  {
    assert all[|done|] == x;
    assert (done + [x])[|done|] == x;
    assert forall y <- done :: y in done + [x];
  }

  /** The class from p to ep matches a character. */
  predicate Single(pat: seq<byte>, p: nat, ep: nat, c: byte) {
    if At(pat, p) == DOT then true
    else if At(pat, p) == L_ESC then MatchClass(c, At(pat, p + 1))
    else if At(pat, p) == SET then ep > 0 && InSet(pat, p, ep - 1, c)
    else At(pat, p) == c
  }

  /** singlematch */
  method SingleMatch(c: byte, pat: seq<byte>, p: nat, ep: nat) returns (r: bool)
    requires ep > 0
    ensures r == Single(pat, p, ep, c)
  {
    if At(pat, p) == DOT {
      r := true;
    } else if At(pat, p) == L_ESC {
      r := MatchClass(c, At(pat, p + 1));
    } else if At(pat, p) == SET {
      r := MatchBracketClass(c, pat, p, ep - 1);
    } else {
      r := At(pat, p) == c;
    }
  }
}
