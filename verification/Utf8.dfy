/** unicode_to_utf8 and unicode_from_utf8 of cutils.c: the 31-bit form of section 2 of RFC 2279,
    of which only the shortest sequence for a value is accepted. */
module Utf8 {
  import opened Bytes

  const CHAR_LIMIT: nat := 0x8000_0000

  // how many bytes follow the first
  function Follow(c: nat): (l: nat)
    ensures l <= 5
  {
    if c < 0x80 then 0 else if c < 0x800 then 1 else if c < 0x1_0000 then 2
    else if c < 0x20_0000 then 3 else if c < 0x400_0000 then 4 else 5
  }

  // the first byte of the sequences with l more bytes, and how many values it can take
  function Mark(l: nat): nat {
    if l == 0 then 0 else if l == 1 then 0xc0 else if l == 2 then 0xe0
    else if l == 3 then 0xf0 else if l == 4 then 0xf8 else 0xfc
  }

  function Leads(l: nat): nat {
    if l == 0 then 0x80 else if l == 1 then 0x20 else if l == 2 then 0x10
    else if l == 3 then 8 else if l == 4 then 4 else 2
  }

  // utf8_min_code
  function MinCode(l: nat): nat {
    if l == 0 then 0 else if l == 1 then 0x80 else if l == 2 then 0x800
    else if l == 3 then 0x1_0000 else if l == 4 then 0x20_0000 else 0x400_0000
  }

  function Head(c: nat, l: nat): nat {
    if l == 0 then c else Head(c / 64, l - 1)
  }

  function Tail(c: nat, l: nat): (s: seq<Byte>)
    ensures |s| == l && forall i | 0 <= i < l :: 0x80 <= s[i] < 0xc0
  {
    if l == 0 then [] else Tail(c / 64, l - 1) + [0x80 + c % 64]
  }

  // The table of RFC 2279: the bits of c, six to a byte after the first.
  function Encode(c: nat): (s: seq<Byte>)
    requires c < CHAR_LIMIT
    ensures |s| == 1 + Follow(c)
  {
    var l := Follow(c);
    HeadRange(c);
    [Mark(l) + Head(c, l)] + Tail(c, l)
  }

  lemma {:induction false} HeadFive(c: nat)
    ensures Head(c, 0) == c && Head(c, 1) == c / 64 && Head(c, 2) == c / 0x1000 && Head(c, 3) == c / 0x4_0000
    ensures Head(c, 4) == c / 0x100_0000 && Head(c, 5) == c / 0x4000_0000
  {
    hide Head;
    HeadNext(c, 0);
    HeadNext(c, 1);
    HeadNext(c, 2);
    HeadNext(c, 3);
    HeadNext(c, 4);
  }

  lemma {:induction false} HeadNext(c: nat, l: nat)
    ensures Head(c, 0) == c && Head(c, l + 1) == Head(c, l) / 64
  {
    if l > 0 {
      HeadNext(c / 64, l - 1);
    }
  }

  // the first bytes of different lengths do not meet
  lemma {:induction false} HeadRange(c: nat)
    requires c < CHAR_LIMIT
    ensures var l := Follow(c); Head(c, l) < Leads(l) && Mark(l) + Head(c, l) < 0xfe && MinCode(l) <= c
  {
    hide Head;
    HeadFive(c);
  }

  // a value in the range of l more bytes takes that many
  lemma {:induction false} FollowIs(c: nat, l: nat)
    requires l <= 5 && Head(c, l) < Leads(l) && MinCode(l) <= c
    ensures c < CHAR_LIMIT && Follow(c) == l
  {
    hide Head;
    HeadFive(c);
  }

  lemma {:induction false} TailUnique(c: nat, d: nat, l: nat)
    requires Head(c, l) == Head(d, l) && Tail(c, l) == Tail(d, l)
    ensures c == d
  {
    if l > 0 {
      assert Tail(c, l)[l - 1] == Tail(d, l)[l - 1];
      assert Tail(c, l)[..l - 1] == Tail(c / 64, l - 1) && Tail(d, l)[..l - 1] == Tail(d / 64, l - 1);
      TailUnique(c / 64, d / 64, l - 1);
    }
  }

  ghost predicate Starts(c: nat, p: seq<Byte>) {
    c < CHAR_LIMIT && Encode(c) <= p
  }

  // No encoding is a prefix of another.
  lemma {:induction false} PrefixFree(c: nat, d: nat, p: seq<Byte>)
    requires Starts(c, p) && Starts(d, p)
    ensures c == d
  {
    hide Tail, Head;
    var l := Follow(c);
    FirstByte(c, p);
    FirstByte(d, p);
    SameLead(l, Follow(d), Head(c, l), Head(d, Follow(d)));
    TailUnique(c, d, l);
  }

  lemma {:induction false} FirstByte(c: nat, p: seq<Byte>)
    requires Starts(c, p)
    ensures var l := Follow(c);
            l < |p| && p[0] == Mark(l) + Head(c, l) && p[1..l + 1] == Tail(c, l) && Head(c, l) < Leads(l)
            && MinCode(l) <= c
  {
    hide Tail, Head, Mark, Leads, MinCode, Follow;
    HeadRange(c);
    var l, e := Follow(c), Encode(c);
    assert p[..l + 1] == e;
    assert p[..l + 1][1..] == p[1..l + 1] && e[1..] == Tail(c, l) && p[0] == e[0];
  }

  lemma {:induction false} SameLead(l: nat, k: nat, x: nat, y: nat)
    requires l <= 5 && k <= 5 && x < Leads(l) && y < Leads(k) && Mark(l) + x == Mark(k) + y
    ensures l == k && x == y
  {
  }

  // s is being written at o, and q is where the next byte goes
  ghost predicate Written(was: seq<Byte>, now: seq<Byte>, o: nat, q: nat, s: seq<Byte>) {
    && |now| == |was| && o <= q <= o + |s| <= |now|
    && now[..o] == was[..o] && now[o..q] == s[..q - o] && now[q..] == was[q..]
  }

  lemma {:induction false} WriteStart(was: seq<Byte>, o: nat, s: seq<Byte>)
    requires o + |s| <= |was|
    ensures Written(was, was, o, o, s)
  {
  }

  lemma {:induction false} WriteNext(was: seq<Byte>, now: seq<Byte>, o: nat, q: nat, s: seq<Byte>, v: int)
    requires Written(was, now, o, q, s) && q < o + |s| && v == s[q - o]
    ensures q < |now| && 0 <= v < 256 && Written(was, now[q := v], o, q + 1, s)
  {
    var next := now[q := v];
    assert next[o..q + 1] == now[o..q] + [v];
    assert next[q + 1..] == now[q..][1..] && was[q + 1..] == was[q..][1..];
  }

  lemma {:induction false} WriteEnd(was: seq<Byte>, now: seq<Byte>, o: nat, s: seq<Byte>)
    requires Written(was, now, o, o + |s|, s)
    ensures now == was[..o] + s + was[o + |s|..]
  {
    assert now == now[..o] + now[o..o + |s|] + now[o + |s|..];
  }

  // *q++ = v
  method Put(buf: array<Byte>, q: nat, v: int, ghost was: seq<Byte>, ghost o: nat, ghost s: seq<Byte>) returns (q': nat)
    requires Written(was, buf[..], o, q, s) && q < o + |s| && v == s[q - o]
    modifies buf
    ensures q' == q + 1 && Written(was, buf[..], o, q', s)
  {
    hide Written;
    ghost var now := buf[..];
    WriteNext(was, now, o, q, s, v);
    buf[q] := v;
    assert buf[..] == now[q := buf[q]];
    q' := q + 1;
  }

  // unicode_to_utf8: nothing is written for more than 31 bits
  method UnicodeToUtf8(buf: array<Byte>, o: nat, c: nat) returns (len: nat)
    requires o + 6 <= buf.Length && c < 0x1_0000_0000
    modifies buf
    ensures c >= CHAR_LIMIT ==> len == 0 && buf[..] == old(buf[..])
    ensures c < CHAR_LIMIT ==> len == |Encode(c)| && buf[..] == old(buf[..])[..o] + Encode(c) + old(buf[..])[o + len..]
  {
    hide Tail, Head, Encode, Written, Follow, Spelling, Mark;
    var q := o;
    ghost var was := buf[..];
    if c >= CHAR_LIMIT {
      return 0;
    }
    ghost var l, s := Follow(c), Encode(c);
    SpelledOut(c);
    FollowRange(c);
    WriteStart(was, o, s);
    if c < 0x80 {
      q := Put(buf, q, c, was, o, s);
    } else {
      if c < 0x800 {
        q := Put(buf, q, 0xc0 + c / 64, was, o, s);
      } else {
        if c < 0x1_0000 {
          q := Put(buf, q, 0xe0 + c / 0x1000, was, o, s);
        } else {
          if c < 0x20_0000 {
            q := Put(buf, q, 0xf0 + c / 0x4_0000, was, o, s);
          } else {
            if c < 0x400_0000 {
              q := Put(buf, q, 0xf8 + c / 0x100_0000, was, o, s);
            } else {
              q := Put(buf, q, 0xfc + c / 0x4000_0000, was, o, s);
              q := Put(buf, q, 0x80 + c / 0x100_0000 % 64, was, o, s);
            }
            q := Put(buf, q, 0x80 + c / 0x4_0000 % 64, was, o, s);
          }
          q := Put(buf, q, 0x80 + c / 0x1000 % 64, was, o, s);
        }
        q := Put(buf, q, 0x80 + c / 64 % 64, was, o, s);
      }
      q := Put(buf, q, 0x80 + c % 64, was, o, s);
    }
    WriteEnd(was, buf[..], o, s);
    len := q - o;
  }

  lemma {:induction false} FollowRange(c: nat)
    requires c < CHAR_LIMIT
    ensures var l := Follow(c);
            && |Encode(c)| == l + 1 && l <= 5 && (c < 0x80 <==> l == 0) && (c < 0x800 <==> l <= 1)
            && (c < 0x1_0000 <==> l <= 2)
            && (c < 0x20_0000 <==> l <= 3) && (c < 0x400_0000 <==> l <= 4)
  {
  }

  // byte i of an encoding, as the code computes it
  function Spelling(c: nat, l: nat, i: nat): nat
    requires i <= l
  {
    var k := l - i;
    if i == 0 then Mark(l) + Shifted(c, l)
    else 0x80 + Shifted(c, k) % 64
  }

  function Shifted(c: nat, k: nat): nat {
    if k == 0 then c else if k == 1 then c / 64 else if k == 2 then c / 0x1000
    else if k == 3 then c / 0x4_0000 else if k == 4 then c / 0x100_0000 else c / 0x4000_0000
  }

  lemma {:induction false} Spelled(c: nat)
    requires c < CHAR_LIMIT
    ensures forall i | 0 <= i <= Follow(c) :: Encode(c)[i] == Spelling(c, Follow(c), i)
  {
    hide Tail, Head, Shifted;
    var l := Follow(c);
    forall i | 0 <= i <= l ensures Encode(c)[i] == Spelling(c, l, i) {
      HeadShifted(c, l - i);
      if i > 0 {
        TailAt(c, l, l - i);
      }
    }
  }

  // the six lengths, spelled out
  lemma {:induction false} SpelledOut(c: nat)
    requires c < CHAR_LIMIT
    ensures var l, s := Follow(c), Encode(c);
            && s[l] == (if l == 0 then c else 0x80 + c % 64)
            && (l >= 1 ==> s[l - 1] == if l == 1 then 0xc0 + c / 64 else 0x80 + c / 64 % 64)
            && (l >= 2 ==> s[l - 2] == if l == 2 then 0xe0 + c / 0x1000 else 0x80 + c / 0x1000 % 64)
            && (l >= 3 ==> s[l - 3] == if l == 3 then 0xf0 + c / 0x4_0000 else 0x80 + c / 0x4_0000 % 64)
            && (l >= 4 ==> s[l - 4] == if l == 4 then 0xf8 + c / 0x100_0000 else 0x80 + c / 0x100_0000 % 64)
            && (l >= 5 ==> s[l - 5] == 0xfc + c / 0x4000_0000)
  {
    hide Encode, Follow;
    FollowRange(c);
    Spelled(c);
  }

  lemma {:induction false} HeadShifted(c: nat, k: nat)
    requires k <= 5
    ensures Head(c, k) == Shifted(c, k)
  {
    hide Head;
    HeadFive(c);
  }

  lemma {:induction false} TailAt(c: nat, l: nat, i: nat)
    requires i < l
    ensures Tail(c, l)[l - 1 - i] == 0x80 + Head(c, i) % 64
  {
    if i > 0 {
      TailAt(c / 64, l - 1, i - 1);
    }
  }

  datatype Option<T> = None | Some(value: T)

  // what the bytes start with
  ghost function Decoded(p: seq<Byte>): (r: Option<nat>)
    ensures r.Some? ==> Starts(r.value, p)
    ensures r.None? ==> forall c: nat :: !Starts(c, p)
  {
    if c: nat :| Starts(c, p) then Some(c) else None
  }

  // the length the first byte announces
  ghost predicate Announces(b: nat, l: nat) {
    1 <= l <= 5 && Mark(l) <= b < Mark(l) + Leads(l)
  }

  lemma {:induction false} StartsAnnounced(c: nat, p: seq<Byte>)
    requires Starts(c, p)
    ensures p != [] && (p[0] < 0x80 || Announces(p[0], Follow(c))) && p[0] < 0xfe && !(0x80 <= p[0] < 0xc0)
  {
    hide Head, Tail;
    FirstByte(c, p);
  }

  // what is known of every value whose encoding these bytes could start with
  lemma {:induction false} AnnouncedLength(c: nat, p: seq<Byte>, l: nat)
    requires Starts(c, p) && p != [] && Announces(p[0], l)
    ensures Follow(c) == l < |p| && Head(c, l) == p[0] - Mark(l) && p[1..l + 1] == Tail(c, l) && MinCode(l) <= c
  {
    hide Head, Tail;
    FirstByte(c, p);
    SameLead(Follow(c), l, Head(c, Follow(c)), p[0] - Mark(l));
  }

  lemma {:induction false} LeadBits(b: nat, l: nat)
    requires Announces(b, l)
    ensures b % Leads(l) == b - Mark(l) >= 0
  {
  }

  lemma {:induction false} TailNext(c: nat, d: nat, l: nat)
    requires d < 64
    ensures Tail(c * 64 + d, l + 1) == Tail(c, l) + [0x80 + d] && Head(c * 64 + d, l + 1) == Head(c, l)
  {
    assert (c * 64 + d) / 64 == c && (c * 64 + d) % 64 == d;
  }

  // the value read is the only one these bytes can start with, when it is not too small
  lemma {:induction false} ReadRight(p: seq<Byte>, l: nat, c: nat)
    requires p != [] && Announces(p[0], l) && l < |p| && Head(c, l) == p[0] - Mark(l) && p[1..l + 1] == Tail(c, l)
    ensures c >= MinCode(l) ==> Starts(c, p) && |Encode(c)| == l + 1
    ensures c < MinCode(l) ==> forall d: nat :: !Starts(d, p)
  {
    hide Head, Tail, Starts;
    if c >= MinCode(l) {
      FollowIs(c, l);
      EncodedPrefix(p, l, c);
    } else {
      forall d: nat ensures !Starts(d, p) {
        TooSmall(p, l, c, d);
      }
    }
  }

  lemma {:induction false} EncodedPrefix(p: seq<Byte>, l: nat, c: nat)
    requires l < |p| && c < CHAR_LIMIT && l == Follow(c) && p[0] == Mark(l) + Head(c, l) && p[1..l + 1] == Tail(c, l)
    ensures Starts(c, p)
  {
    hide Head, Tail;
    assert p[..l + 1] == [p[0]] + p[1..l + 1];
  }

  lemma {:induction false} TooSmall(p: seq<Byte>, l: nat, c: nat, d: nat)
    requires p != [] && Announces(p[0], l) && l < |p| && Head(c, l) == p[0] - Mark(l) && p[1..l + 1] == Tail(c, l)
    requires c < MinCode(l)
    ensures !Starts(d, p)
  {
    hide Head, Tail, Starts, Announces, Mark;
    if Starts(d, p) {
      AnnouncedLength(d, p, l);
      TailUnique(c, d, l);
    }
  }

  lemma {:induction false} NotAnnounced(p: seq<Byte>, c: nat)
    requires p != [] && (0x80 <= p[0] < 0xc0 || p[0] >= 0xfe)
    ensures !Starts(c, p)
  {
    hide Starts;
    if Starts(c, p) {
      StartsAnnounced(c, p);
    }
  }

  lemma {:induction false} CutShort(p: seq<Byte>, l: nat, c: nat)
    requires p != [] && Announces(p[0], l) && |p| <= l
    ensures !Starts(c, p)
  {
    hide Starts, Announces;
    if Starts(c, p) {
      AnnouncedLength(c, p, l);
    }
  }

  lemma {:induction false} BadFollower(p: seq<Byte>, l: nat, i: nat, c: nat)
    requires p != [] && Announces(p[0], l) && i < l < |p| && !(0x80 <= p[1 + i] < 0xc0)
    ensures !Starts(c, p)
  {
    hide Starts, Announces;
    assert p[1..l + 1][i] == p[1 + i];
    if Starts(c, p) {
      AnnouncedLength(c, p, l);
    }
  }

  lemma {:induction false} OneByte(p: seq<Byte>)
    requires p != [] && p[0] < 0x80
    ensures Starts(p[0], p) && |Encode(p[0])| == 1
  {
    assert Encode(p[0]) == [p[0]] + [] == p[..1];
  }

  // unicode_from_utf8 on the bytes it may read: the value and how many bytes it took, or -1.
  // It succeeds exactly when the bytes start with the encoding of some value.
  method UnicodeFromUtf8(p: seq<Byte>) returns (r: Option<(nat, nat)>)
    requires |p| >= 1
    ensures r.Some? ==> Starts(r.value.0, p) && r.value.1 == |Encode(r.value.0)|
    ensures r.None? ==> forall c: nat :: !Starts(c, p)
  {
    hide Head, Tail, Starts, Encode;
    var first := p[0];
    if first < 0x80 {
      OneByte(p);
      return Some((first, 1));
    }
    var l;
    if 0xc0 <= first <= 0xdf {
      l := 1;
    } else if 0xe0 <= first <= 0xef {
      l := 2;
    } else if 0xf0 <= first <= 0xf7 {
      l := 3;
    } else if 0xf8 <= first <= 0xfb {
      l := 4;
    } else if 0xfc <= first <= 0xfd {
      l := 5;
    } else {
      forall c: nat ensures !Starts(c, p) {
        NotAnnounced(p, c);
      }
      return None;
    }
    assert Announces(first, l);
    if l > |p| - 1 {
      forall c: nat ensures !Starts(c, p) {
        CutShort(p, l, c);
      }
      return None;
    }
    LeadBits(first, l);
    var c: nat := first % Leads(l);
    hide Announces, Mark, Leads;
    var i := 0;
    NoTail(c);
    while i < l
      invariant 0 <= i <= l && p[1..1 + i] == Tail(c, i) && Head(c, i) == first % Leads(l)
    {
      var b := p[1 + i];
      if b < 0x80 || b >= 0xc0 {
        forall d: nat ensures !Starts(d, p) {
          BadFollower(p, l, i, d);
        }
        return None;
      }
      TailNext(c, b % 64, i);
      assert p[1..1 + (i + 1)] == p[1..1 + i] + [b];
      c := c * 64 + b % 64;
      i := i + 1;
    }
    ReadRight(p, l, c);
    if c < MinCode(l) {
      return None;
    }
    r := Some((c, l + 1));
  }

  lemma {:induction false} NoTail(c: nat)
    ensures Tail(c, 0) == [] && Head(c, 0) == c
  {
  }

  predicate AreChars(cs: seq<nat>) {
    forall i | 0 <= i < |cs| :: cs[i] < CHAR_LIMIT
  }

  function EncodeAll(cs: seq<nat>): seq<Byte>
    requires AreChars(cs)
  {
    if cs == [] then [] else Encode(cs[0]) + EncodeAll(cs[1..])
  }

  // one value after another, until the bytes are used up
  ghost function DecodeAll(p: seq<Byte>): Option<seq<nat>>
    decreases |p|
  {
    if p == [] then Some([])
    else
      match Decoded(p)
      case None => None
      case Some(c) =>
        match DecodeAll(p[|Encode(c)|..])
        case None => None
        case Some(cs) => Some([c] + cs)
  }

  // unicode_from_utf8 over a whole string
  method DecodeStream(p: seq<Byte>) returns (r: Option<seq<nat>>)
    ensures r == DecodeAll(p)
    decreases |p|
  {
    hide Starts, Encode;
    if p == [] {
      return Some([]);
    }
    var d := UnicodeFromUtf8(p);
    if d.None? {
      return None;
    }
    PrefixFree(d.value.0, Decoded(p).value, p);
    StartsFits(d.value.0, p);
    var rest := DecodeStream(p[d.value.1..]);
    r := if rest.Some? then Some([d.value.0] + rest.value) else None;
  }

  lemma {:induction false} StartsFits(c: nat, p: seq<Byte>)
    requires Starts(c, p)
    ensures c < CHAR_LIMIT && 1 <= |Encode(c)| <= |p|
  {
    hide Head, Tail;
  }

  // Decoding undoes encoding,
  lemma {:induction false} StreamRoundTrip(cs: seq<nat>)
    requires AreChars(cs)
    ensures DecodeAll(EncodeAll(cs)) == Some(cs)
  {
    hide Encode;
    if cs != [] {
      var c, rest := cs[0], EncodeAll(cs[1..]);
      var p := Encode(c) + rest;
      assert Starts(c, p);
      PrefixFree(c, Decoded(p).value, p);
      assert p[|Encode(c)|..] == rest;
      StreamRoundTrip(cs[1..]);
      assert cs == [c] + cs[1..];
    }
  }

  // and what decodes was encoded: only shortest forms are accepted.
  lemma {:induction false} StreamReencode(p: seq<Byte>)
    requires DecodeAll(p).Some?
    ensures AreChars(DecodeAll(p).value) && EncodeAll(DecodeAll(p).value) == p
    decreases |p|
  {
    hide Encode;
    if p != [] {
      var c := Decoded(p).value;
      var rest := p[|Encode(c)|..];
      StreamReencode(rest);
      var cs := DecodeAll(rest).value;
      assert ([c] + cs)[1..] == cs;
      assert p == Encode(c) + rest;
    }
  }
}
