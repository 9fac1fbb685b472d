/**
  The search-query encoder of the `twitter` package: a `Query` record with
  free text and optional `since` / `until` date bounds, turned into the one
  value of the `q=` request parameter.
 */
module Twitter {
  import opened Wrappers
  import opened Strings
  import opened Url

  /**
    The search query. Each field may be empty; the date bounds are opaque
    strings that are not validated here. The Go struct is a value whose
    methods only read it, so a datatype models it exactly.
   */
  datatype Query = Query(Text: Bytes, Since: Bytes, Until: Bytes)

  const SincePrefix: Bytes := "since:"
  const UntilPrefix: Bytes := "until:"

  /** The tokens of the date bounds: `since:Since?` then `until:Until?`, empty bounds dropped. */
  function BoundTokens(q: Query): seq<Bytes>
  {
    (if |q.Since| != 0 then [SincePrefix + q.Since] else [])
    + (if |q.Until| != 0 then [UntilPrefix + q.Until] else [])
  }

  /** The token list `[escaped Text?, since:Since?, until:Until?]`, empty fields dropped. */
  function Tokens(q: Query): seq<Bytes>
  {
    (if |q.Text| != 0 then [QueryEscape(q.Text)] else []) + BoundTokens(q)
  }

  /** The same tokens with the text not yet escaped. */
  function RawTokens(q: Query): seq<Bytes>
  {
    (if |q.Text| != 0 then [q.Text] else []) + BoundTokens(q)
  }

  /** How many of the three fields are non-empty. */
  function PresentFields(q: Query): nat
  {
    (if |q.Text| != 0 then 1 else 0)
    + (if |q.Since| != 0 then 1 else 0)
    + (if |q.Until| != 0 then 1 else 0)
  }

  /**
    The encoded query, as `Query.Encode` computes it: it starts with the
    token of the first non-empty field.
   */
  function Encoded(q: Query): (r: Bytes)
    ensures |q.Text| != 0 ==> QueryEscape(q.Text) <= r
    ensures |q.Text| == 0 && |q.Since| != 0 ==> SincePrefix + q.Since <= r
    ensures |q.Text| == 0 && |q.Since| == 0 ==> r == (if |q.Until| != 0 then UntilPrefix + q.Until else [])
  {
    Join(Tokens(q), QueryEscape(" "))
  }

  /** The separator `url.QueryEscape(" ")` is the single byte '+'. */
  lemma SeparatorIsPlus()
    ensures QueryEscape(" ") == Plus
  {
  }

  /**
    `Query.Encode`: collect a token for each non-empty field, in the order
    text, since, until, and join them with the escaped space. The query is
    a value and is left as it was.
   */
  method Encode(q: Query) returns (r: Bytes)
    ensures r == Encoded(q)
    ensures r == Join(Tokens(q), Plus)
    ensures r == [] <==> |q.Text| == 0 && |q.Since| == 0 && |q.Until| == 0
  {
    var ss: seq<Bytes> := [];
    if |q.Text| != 0 {
      ss := ss + [QueryEscape(q.Text)];
    }
    if |q.Since| != 0 {
      ss := ss + [SincePrefix + q.Since];
    }
    if |q.Until| != 0 {
      ss := ss + [UntilPrefix + q.Until];
    }
    assert ss == Tokens(q);
    SeparatorIsPlus();
    r := Join(ss, QueryEscape(" "));
    EncodedEmpty(q);
  }

  /** `Query.IsEmpty`: the encoding is the empty string. */
  function IsEmpty(q: Query): (b: bool)
    ensures b <==> |q.Text| == 0 && |q.Since| == 0 && |q.Until| == 0
  {
    EncodedEmpty(q);
    |Encoded(q)| == 0
  }

  /** Every token is non-empty, one per present field. */
  lemma TokensShape(q: Query)
    ensures |Tokens(q)| == PresentFields(q)
    ensures forall i :: 0 <= i < |Tokens(q)| ==> Tokens(q)[i] != []
  {
  }

  /** The encoding is empty exactly when all three fields are empty. */
  lemma EncodedEmpty(q: Query)
    ensures Encoded(q) == [] <==> |q.Text| == 0 && |q.Since| == 0 && |q.Until| == 0
  {
    TokensShape(q);
    if |Tokens(q)| > 0 {
      JoinNonEmpty(Tokens(q), QueryEscape(" "), 0);
    }
  }

  /** The all-empty query encodes to the empty string and is empty. */
  lemma EmptyQueryEncodesEmpty()
    ensures Encoded(Query([], [], [])) == []
    ensures IsEmpty(Query([], [], []))
  {
  }

  /**
    The closed form of the encoding: each present field in turn, with a '+'
    before a token exactly when an earlier token is present. Empty fields
    contribute neither a token nor a separator.
   */
  lemma EncodedClosedForm(q: Query)
    ensures var t, s, u := |q.Text| != 0, |q.Since| != 0, |q.Until| != 0;
      Encoded(q) ==
        (if t then QueryEscape(q.Text) else [])
        + (if t && s then Plus else [])
        + (if s then SincePrefix + q.Since else [])
        + (if (t || s) && u then Plus else [])
        + (if u then UntilPrefix + q.Until else [])
  {
    SeparatorIsPlus();
    var t, s, u := |q.Text| != 0, |q.Since| != 0, |q.Until| != 0;
    var ts: seq<Bytes> := if t then [QueryEscape(q.Text)] else [];
    var ss: seq<Bytes> := if s then [SincePrefix + q.Since] else [];
    var us: seq<Bytes> := if u then [UntilPrefix + q.Until] else [];
    assert BoundTokens(q) == ss + us;
    assert Tokens(q) == ts + ss + us;
    var textPart: Bytes := if t then QueryEscape(q.Text) else [];
    assert Join(ts, Plus) == textPart;
    var lead := textPart + (if t && s then Plus else []) + (if s then SincePrefix + q.Since else []);
    if s {
      JoinSnoc(ts, SincePrefix + q.Since, Plus);
    } else {
      assert ts + ss == ts;
    }
    assert Join(ts + ss, Plus) == lead;
    if u {
      JoinSnoc(ts + ss, UntilPrefix + q.Until, Plus);
    } else {
      assert ts + ss + us == ts + ss;
    }
  }

  /**
    The length of the encoding: the escaped text, the prefixed dates, and
    one separator fewer than there are present fields.
   */
  lemma EncodedLength(q: Query)
    ensures |Encoded(q)| ==
      |QueryEscape(q.Text)|
      + (if |q.Since| != 0 then |SincePrefix| + |q.Since| else 0)
      + (if |q.Until| != 0 then |UntilPrefix| + |q.Until| else 0)
      + (if PresentFields(q) > 0 then PresentFields(q) - 1 else 0)
  {
    EncodedClosedForm(q);
  }

  /**
    The date bounds are copied verbatim, whatever bytes they hold: a query
    with only a `since` bound encodes to `since:` and the bound itself.
   */
  lemma SinceVerbatim(d: Bytes)
    requires |d| != 0
    ensures Encoded(Query([], d, [])) == SincePrefix + d
  {
  }

  /** Likewise a query with only an `until` bound encodes to `until:` and the bound. */
  lemma UntilVerbatim(d: Bytes)
    requires |d| != 0
    ensures Encoded(Query([], [], d)) == UntilPrefix + d
  {
  }

  /**
    A text-only query encodes to the escaped text, which has the escaped
    shape and unescapes back to the text.
   */
  lemma TextOnlyRoundTrip(t: Bytes)
    ensures WellEscaped(Encoded(Query(t, [], [])))
    ensures QueryUnescape(Encoded(Query(t, [], []))) == Ok(t)
  {
    EscapeWellEscaped(t);
    EscapeRoundTrip(t);
    if |t| == 0 {
      assert QueryUnescape([]) == Ok([]);
    }
  }

  /** Text made only of unreserved bytes is sent as it is. */
  lemma UnreservedTextUnchanged(t: Bytes)
    requires forall i :: 0 <= i < |t| ==> IsUnreserved(t[i])
    ensures Encoded(Query(t, [], [])) == t
  {
    EscapeUnreserved(t);
  }

  /**
    Unescaping the encoded query gives the unescaped tokens joined by
    spaces: the round trip of the escape, extended to the whole query. The
    date bounds are not escaped, so it needs them to hold no byte that
    unescaping would change.
   */
  lemma UnescapeEncoded(q: Query)
    requires IsPlain(q.Since) && IsPlain(q.Until)
    ensures QueryUnescape(Encoded(q)) == Ok(Join(RawTokens(q), Space))
  {
    SeparatorIsPlus();
    var ts, us := Tokens(q), RawTokens(q);
    EscapeRoundTrip(q.Text);
    assert IsPlain(SincePrefix) && IsPlain(UntilPrefix);
    UnescapePlain(SincePrefix + q.Since);
    UnescapePlain(UntilPrefix + q.Until);
    assert forall i :: 0 <= i < |ts| ==> QueryUnescape(ts[i]) == Ok(us[i]);
    UnescapeJoin(ts, us);
  }

  /**
    The token list can be read back by splitting on '+' when no token can
    itself hold a '+': the text has no space and the date bounds no '+'.
   */
  lemma TokensRecovered(q: Query)
    requires !IsEmpty(q)
    requires ' ' !in q.Text && '+' !in q.Since && '+' !in q.Until
    ensures Split<Byte>(Encoded(q), '+') == Tokens(q)
  {
    SeparatorIsPlus();
    var ts := Tokens(q);
    EscapePlus(q.Text);
    assert '+' !in SincePrefix + q.Since;
    assert '+' !in UntilPrefix + q.Until;
    assert forall i :: 0 <= i < |ts| ==> '+' !in ts[i];
    TokensShape(q);
    SplitJoin<Byte>(ts, '+');
    assert Plus == ['+'];
  }
}
