/**
 * Command-line token parsing for the `post` subcommand: `key=value` body
 * tokens and the URL argument.
 *
 * A body token is split on `=` and the first two segments become the key and
 * the value. Later segments are dropped, so `a=b=c` gives key `a` and value
 * `b`. A token with no `=` has no second segment and is rejected with an
 * error that carries the token.
 */
module KvParse {
  import opened Strings

  /** The separator between key and value in a body token. */
  const Sep: char := '='

  datatype KvPair = KvPair(k: string, v: string)

  /** The failure of a body token; it carries the offending token. */
  datatype ParseError = ParseFailed(token: string)
  {
    /** The error's text, `Failed to parse <token>`. */
    function Message(): (msg: string)
    {
      "Failed to parse " + token
    }
  }

  /** The failure of the URL argument; it carries the rejected string. */
  datatype UrlError = InvalidUrl(token: string)

  datatype Result<T, E> = Ok(value: T) | Err(error: E)

  /**
   * Parses a body token: the first `=`-separated segment is the key and the
   * second the value. The first pull from the split never fails, since a
   * split yields at least one segment; the second fails exactly when the
   * token has no `=`.
   */
  function FromStr(s: string): (r: Result<KvPair, ParseError>)
    ensures r.Err? <==> Sep !in s
    ensures r.Err? ==> r.error == ParseFailed(s)
    ensures r.Ok? ==> SegmentAt(s, 0, r.value.k, Sep)
    ensures r.Ok? ==> SegmentAt(s, |r.value.k| + 1, r.value.v, Sep)
  {
    var segs := Split(s, Sep);
    if |segs| < 2 then Err(ParseFailed(s))
    else
      JoinFirstSegments(segs, Sep);
      Ok(KvPair(segs[0], segs[1]))
  }

  /**
   * The command-line hook for body tokens: it gives exactly what FromStr
   * gives, so it accepts a token precisely when it contains a separator.
   */
  function ParseKvPair(s: string): (r: Result<KvPair, ParseError>)
    ensures r == FromStr(s)
    ensures r.Ok? <==> Sep in s
  {
    FromStr(s)
  }

  /**
   * The URL argument is accepted when the URL parser `isUrl` accepts it, and
   * the string itself, not the parsed URL, is what is kept.
   */
  function ParseUrl(s: string, isUrl: string -> bool): (r: Result<string, UrlError>)
    ensures r.Ok? <==> isUrl(s)
    ensures r.Ok? ==> r.value == s
    ensures r.Err? ==> r.error == InvalidUrl(s)
  {
    if isUrl(s) then Ok(s) else Err(InvalidUrl(s))
  }

  /** The key is exactly the text before the first `=` of the token. */
  lemma FromStrKeyBeforeFirstSep(s: string)
    requires Sep in s
    ensures FromStr(s).Ok? && FromStr(s).value.k == s[..IndexOf(s, Sep)]
  {
    var i := IndexOf(s, Sep);
    assert s[0..i] == s[..i];
    SegmentAtUnique(s, 0, FromStr(s).value.k, s[..i], Sep);
  }

  /**
   * Round trip: a token with exactly one separator is rebuilt by writing the
   * key, `=` and the value.
   */
  lemma FromStrRoundTrip(s: string)
    requires multiset(s)[Sep] == 1
    ensures FromStr(s).Ok?
    ensures FromStr(s).value.k + [Sep] + FromStr(s).value.v == s
  {
    var segs := Split(s, Sep);
    assert |segs| == 2;
    assert Join(segs, Sep) == segs[0] + [Sep] + Join(segs[1..], Sep);
  }

  /**
   * Writing a separator-free key and value around `=` and parsing gives them
   * back; anything after a second `=` is ignored.
   */
  lemma FromStrOfPair(k: string, v: string, tail: string)
    requires Sep !in k && Sep !in v
    ensures FromStr(k + [Sep] + v) == Ok(KvPair(k, v))
    ensures FromStr(k + [Sep] + v + [Sep] + tail) == Ok(KvPair(k, v))
  {
    SplitAfterFree(k, Sep, v);
    assert k + [Sep] + v + [Sep] + tail == k + [Sep] + (v + [Sep] + tail);
    SplitAfterFree(k, Sep, v + [Sep] + tail);
    SplitAfterFree(v, Sep, tail);
  }

  /** `a=b=c` gives key `a` and value `b`: the third segment is dropped. */
  lemma FromStrDropsThirdSegment()
    ensures FromStr("a=b=c") == Ok(KvPair("a", "b"))
  {
    FromStrOfPair("a", "b", "c");
    assert "a=b=c" == "a" + [Sep] + "b" + [Sep] + "c";
  }

  /** The token `=` gives an empty key and an empty value. */
  lemma FromStrLoneSeparator()
    ensures FromStr("=") == Ok(KvPair("", ""))
  {
    FromStrOfPair("", "", "");
    assert "=" == "" + [Sep] + "";
  }

  /** The empty token is rejected, and the error names it. */
  lemma FromStrRejectsEmpty()
    ensures FromStr("") == Err(ParseFailed(""))
    ensures FromStr("").error.Message() == "Failed to parse "
  {
  }
}
