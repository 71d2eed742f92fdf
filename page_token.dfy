/**
  * Page tokens of bookmark pagination. A bookmark travels to clients as the text
  * "bookmark:" followed by the JSON encoding of the bookmark value; anything else a client
  * sends back as `page` (a legacy page number, a foreign prefix, a payload that does not
  * decode) means "no bookmark", so pagination restarts from the beginning instead of failing.
  * Bookmarks here are integer ids, so the JSON payload is the text of an integer.
  */
module PageToken {
  import opened Wrappers
  import opened Digits

  const Prefix: string := "bookmark:"

  /** The `page` parameter as a caller passes it to `paginate`. */
  datatype PageParam = Absent | Number(n: int) | Text(s: string)

  /** JSON text of an integer bookmark. */
  function EncodeBookmark(b: int): (payload: string)
    ensures |payload| >= 1
  {
    IntToText(b)
  }

  /** Digits without a superfluous leading zero, as JSON requires. */
  predicate CanonicalDigits(s: string) {
    |s| >= 1 && AllDigits(s) && (s[0] == '0' ==> |s| == 1)
  }

  /** JSON integer payload back to a bookmark; any other payload decodes to no bookmark. */
  function DecodeBookmark(payload: string): (r: Option<int>)
    ensures r.Some? ==> |payload| >= 1
  {
    if |payload| >= 1 && payload[0] == '-' then
      if CanonicalDigits(payload[1..]) then Some(0 - DigitsToNat(payload[1..]) as int) else None
    else if CanonicalDigits(payload) then Some(DigitsToNat(payload) as int)
    else None
  }

  /** `bookmark_to_page`: the token a client passes back to get the page after `b`. */
  function BookmarkToPage(b: int): string {
    Prefix + EncodeBookmark(b)
  }

  predicate HasPrefix(s: string) {
    |s| >= |Prefix| && s[..|Prefix|] == Prefix
  }

  /** `page_to_bookmark`: the bookmark a page parameter denotes, if any. */
  function PageToBookmark(page: PageParam): (r: Option<int>)
    ensures r.Some? ==> page.Text? && HasPrefix(page.s)
    ensures r.Some? ==> DecodeBookmark(page.s[|Prefix|..]) == r
  {
    match page
    case Text(s) => if HasPrefix(s) then DecodeBookmark(s[|Prefix|..]) else None
    case _ => None
  }

  /** Decoding the encoding of a bookmark gives that bookmark back. */
  lemma DecodeEncode(b: int)
    ensures DecodeBookmark(EncodeBookmark(b)) == Some(b)
  {
    var n: nat := if b < 0 then -b else b;
    DigitsRoundTrip(n);
    if b < 0 {
      assert EncodeBookmark(b)[1..] == NatToDigits(n);
    }
  }

  /** Every payload that decodes is the encoding of what it decodes to ("-0" aside, which JSON reads as 0). */
  lemma EncodeDecode(payload: string)
    requires DecodeBookmark(payload).Some? && payload != "-0"
    ensures EncodeBookmark(DecodeBookmark(payload).value) == payload
  {
    if payload[0] == '-' {
      var body := payload[1..];
      Digits.CanonicalDigits(body);
      assert payload == "-" + body;
    } else {
      Digits.CanonicalDigits(payload);
    }
  }

  /** A token made by `BookmarkToPage` takes the next request to exactly that bookmark. */
  lemma PageRoundTrip(b: int)
    ensures PageToBookmark(Text(BookmarkToPage(b))) == Some(b)
  {
    var page := BookmarkToPage(b);
    assert page[..|Prefix|] == Prefix;
    assert page[|Prefix|..] == EncodeBookmark(b);
    DecodeEncode(b);
  }

  /** A legacy numeric page is not a bookmark. */
  lemma NumberIsNoBookmark(n: int)
    ensures PageToBookmark(Number(n)) == None
  {
  }

  /** A prefixed token whose payload is not a JSON integer is not a bookmark. */
  lemma MalformedPayloadIsNoBookmark()
    ensures PageToBookmark(Text("bookmark:W1td")) == None
  {
    var s := "bookmark:W1td";
    assert HasPrefix(s);
    assert s[|Prefix|..] == "W1td";
    assert !IsDigit('W');
  }
}
