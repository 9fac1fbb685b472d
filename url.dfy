/**
  The part of Go's `net/url` package that the query encoder relies on:
  `url.QueryEscape`, which percent-encodes a byte string for use inside a
  URL query, and its inverse `url.QueryUnescape`, against which the escape
  is checked by a round trip.

  Go strings are byte strings. A byte is modelled as the character with the
  same code (0 to 255), so that string literals can stand for byte strings.
 */
module Url {
  import opened Wrappers
  import opened Strings

  type Byte = c: char | c as int < 256
  type Bytes = seq<Byte>

  /**
    The characters that `url.QueryEscape` leaves alone: the unreserved set of
    section 2.3 of RFC 3986 (letters, digits, '-', '_', '.', '~').
   */
  predicate IsUnreserved(c: Byte)
  {
    || ('A' <= c <= 'Z') || ('a' <= c <= 'z') || ('0' <= c <= '9')
    || c == '-' || c == '_' || c == '.' || c == '~'
  }

  predicate IsUpperHex(c: Byte)
  {
    ('0' <= c <= '9') || ('A' <= c <= 'F')
  }

  /** Any hex digit, either case, as `url.QueryUnescape` accepts it. */
  predicate IsHex(c: Byte)
  {
    ('0' <= c <= '9') || ('a' <= c <= 'f') || ('A' <= c <= 'F')
  }

  /** The upper-case hex digit of a nibble (the table "0123456789ABCDEF"). */
  function UpperHexDigit(n: nat): (d: Byte)
    requires n < 16
    ensures IsUpperHex(d)
  {
    if n < 10 then ('0' as int + n) as char else ('A' as int + n - 10) as char
  }

  /** The value of a hex digit of either case. */
  function HexValue(c: Byte): (v: nat)
    requires IsHex(c)
    ensures v < 16
  {
    if '0' <= c <= '9' then c as int - '0' as int
    else if 'a' <= c <= 'f' then c as int - 'a' as int + 10
    else c as int - 'A' as int + 10
  }

  /**
    The escape of one byte: an unreserved byte stays, a space becomes '+',
    and every other byte becomes '%' and two upper-case hex digits
    (section 2.1 of RFC 3986).
   */
  function EscapeByte(c: Byte): (r: Bytes)
    ensures |r| == 1 || |r| == 3
    ensures WellEscaped(r)
    ensures '+' in r <==> c == ' '
    ensures QueryUnescape(r) == Ok([c])
  {
    if IsUnreserved(c) then [c]
    else if c == ' ' then assert [c] + [] == [c]; ['+']
    else ['%', UpperHexDigit(c as int / 16), UpperHexDigit(c as int % 16)]
  }

  /** `url.QueryEscape`: every byte escaped in turn; each becomes 1 or 3 bytes. */
  function QueryEscape(s: Bytes): (r: Bytes)
    ensures |s| <= |r| <= 3 * |s|
  {
    if s == [] then [] else EscapeByte(s[0]) + QueryEscape(s[1..])
  }

  /** Already decoded bytes put in front of a decoding that may have failed. */
  function PrefixWith(x: Bytes, r: Result<Bytes, Bytes>): Result<Bytes, Bytes>
  {
    match r
    case Ok(y) => Ok(x + y)
    case Err(e) => Err(e)
  }

  /**
    `url.QueryUnescape`: '+' becomes a space, '%' and two hex digits of
    either case become the byte they name, and every other byte is kept.
    A '%' not followed by two hex digits is an error carrying the offending
    text from that '%' on, cut to at most three bytes; the leftmost such
    '%' is the one reported.
   */
  function QueryUnescape(s: Bytes): (r: Result<Bytes, Bytes>)
    ensures r.Ok? ==> |r.value| <= |s|
    ensures r.Err? ==> 1 <= |r.error| <= 3 && r.error[0] == '%'
    decreases |s|
  {
    if s == [] then Ok([])
    else if s[0] == '%' then
      if |s| < 3 || !IsHex(s[1]) || !IsHex(s[2]) then
        Err(if |s| < 3 then s else s[..3])
      else
        PrefixWith([(HexValue(s[1]) * 16 + HexValue(s[2])) as char], QueryUnescape(s[3..]))
    else if s[0] == '+' then PrefixWith([' '], QueryUnescape(s[1..]))
    else PrefixWith([s[0]], QueryUnescape(s[1..]))
  }

  /**
    The shape of an escaped string: only unreserved bytes, '+', and triples
    of '%' with two upper-case hex digits.
   */
  predicate WellEscaped(e: Bytes)
    decreases |e|
  {
    if e == [] then true
    else if IsUnreserved(e[0]) || e[0] == '+' then WellEscaped(e[1..])
    else e[0] == '%' && |e| >= 3 && IsUpperHex(e[1]) && IsUpperHex(e[2]) && WellEscaped(e[3..])
  }

  /** The escape of a single space, and what it unescapes to. */
  const Plus: Bytes := "+"
  const Space: Bytes := " "

  /** Bytes that `url.QueryUnescape` passes through unchanged. */
  predicate IsPlain(s: Bytes)
  {
    '%' !in s && '+' !in s
  }

  /** Round trip: unescaping an escaped string gives back the original bytes. */
  lemma {:induction false} EscapeRoundTrip(s: Bytes)
    ensures QueryUnescape(QueryEscape(s)) == Ok(s)
  {
    if s != [] {
      EscapeRoundTrip(s[1..]);
      UnescapeAppend(EscapeByte(s[0]), QueryEscape(s[1..]));
      assert [s[0]] + s[1..] == s;
    }
  }

  /** Everything `url.QueryEscape` produces has the escaped shape. */
  lemma {:induction false} EscapeWellEscaped(s: Bytes)
    ensures WellEscaped(QueryEscape(s))
  {
    if s != [] {
      EscapeWellEscaped(s[1..]);
      var t := QueryEscape(s[1..]);
      var e := EscapeByte(s[0]) + t;
      if IsUnreserved(s[0]) || s[0] == ' ' {
        assert e[1..] == t;
      } else {
        assert e[3..] == t;
      }
    }
  }

  /** A string made only of unreserved bytes escapes to itself. */
  lemma {:induction false} EscapeUnreserved(s: Bytes)
    requires forall i :: 0 <= i < |s| ==> IsUnreserved(s[i])
    ensures QueryEscape(s) == s
  {
    if s != [] {
      EscapeUnreserved(s[1..]);
      assert [s[0]] + s[1..] == s;
    }
  }

  /** The escaped string holds a '+' exactly when the input holds a space. */
  lemma {:induction false} EscapePlus(s: Bytes)
    ensures '+' in QueryEscape(s) <==> ' ' in s
  {
    if s != [] {
      EscapePlus(s[1..]);
      var t := QueryEscape(s[1..]);
      assert QueryEscape(s) == EscapeByte(s[0]) + t;
      assert ' ' in s <==> s[0] == ' ' || ' ' in s[1..] by {
        assert s == [s[0]] + s[1..];
      }
      assert '+' in EscapeByte(s[0]) <==> s[0] == ' ';
    }
  }

  /** Bytes free of '%' and '+' unescape to themselves. */
  lemma {:induction false} UnescapePlain(s: Bytes)
    requires IsPlain(s)
    ensures QueryUnescape(s) == Ok(s)
  {
    if s != [] {
      UnescapePlain(s[1..]);
      assert [s[0]] + s[1..] == s;
    }
  }

  lemma PrefixWithConcat(x: Bytes, y: Bytes, r: Result<Bytes, Bytes>)
    ensures PrefixWith(x, PrefixWith(y, r)) == PrefixWith(x + y, r)
  {
    if r.Ok? {
      assert x + (y + r.value) == (x + y) + r.value;
    }
  }

  /**
    Unescaping a concatenation whose first part unescapes without error
    unescapes the two parts separately: decoding never reads across the end
    of a part that decodes on its own.
   */
  lemma {:induction false} UnescapeAppend(a: Bytes, b: Bytes)
    requires QueryUnescape(a).Ok?
    ensures QueryUnescape(a + b) == PrefixWith(QueryUnescape(a).value, QueryUnescape(b))
    decreases |a|
  {
    if a == [] {
      assert a + b == b;
      if QueryUnescape(b).Ok? {
        assert [] + QueryUnescape(b).value == QueryUnescape(b).value;
      }
    } else if a[0] == '%' {
      var c := (HexValue(a[1]) * 16 + HexValue(a[2])) as char;
      assert (a + b)[..3] == a[..3] && (a + b)[3..] == a[3..] + b;
      UnescapeAppend(a[3..], b);
      PrefixWithConcat([c], QueryUnescape(a[3..]).value, QueryUnescape(b));
    } else {
      var c := if a[0] == '+' then ' ' else a[0];
      assert (a + b)[0] == a[0] && (a + b)[1..] == a[1..] + b;
      UnescapeAppend(a[1..], b);
      PrefixWithConcat([c], QueryUnescape(a[1..]).value, QueryUnescape(b));
    }
  }

  /**
    Unescaping pieces joined by '+' gives the unescaped pieces joined by
    spaces, when every piece unescapes on its own.
   */
  lemma {:induction false} UnescapeJoin(ts: seq<Bytes>, us: seq<Bytes>)
    requires |ts| == |us|
    requires forall i :: 0 <= i < |ts| ==> QueryUnescape(ts[i]) == Ok(us[i])
    ensures QueryUnescape(Join(ts, Plus)) == Ok(Join(us, Space))
  {
    if |ts| > 1 {
      UnescapeJoin(ts[1..], us[1..]);
      assert Plus == ['+'] && Plus[1..] == [];
      assert [' '] + [] == Space;
      assert QueryUnescape(Plus) == Ok(Space);
      UnescapeAppend(ts[0], Plus);
      UnescapeAppend(ts[0] + Plus, Join(ts[1..], Plus));
    }
  }
}
