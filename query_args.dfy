/**
 * `add_query_args` (export.php): append a key/value map to a URL as an
 * encoded query string, and the parser that reads such a URL back.
 * A PHP array is an ordered map; `Args` lists its entries in iteration order.
 */
module QueryArgs {
  import opened PhpText
  import opened UrlCodec

  type Args = seq<(PhpString, PhpString)>

  /** One `urlencode(key)=urlencode(value)` part. */
  function Part(kv: (PhpString, PhpString)): PhpString
  {
    UrlEncode(kv.0) + "=" + UrlEncode(kv.1)
  }

  /** The parts of `args`, one per entry, in iteration order. */
  function Parts(args: Args): seq<PhpString>
  {
    if args == [] then [] else [Part(args[0])] + Parts(args[1..])
  }

  /** There is one part per entry, the k-th made from the k-th entry, and none holds `&`. */
  lemma {:induction false} PartsAt(args: Args)
    ensures |Parts(args)| == |args|
    ensures forall k :: 0 <= k < |args| ==> Parts(args)[k] == Part(args[k]) && '&' !in Parts(args)[k]
  {
    if args != [] {
      PartsAt(args[1..]);
      UrlEncodeAlphabet(args[0].0);
      UrlEncodeAlphabet(args[0].1);
      forall k | 0 <= k < |args|
        ensures Parts(args)[k] == Part(args[k]) && '&' !in Parts(args)[k]
      {
        if k > 0 {
          assert Parts(args)[k] == Parts(args[1..])[k - 1];
          assert args[1..][k - 1] == args[k];
        }
      }
    }
  }

  lemma {:induction false} PartsAppend(a: Args, b: Args)
    ensures Parts(a + b) == Parts(a) + Parts(b)
  {
    if a == [] {
      assert a + b == b;
    } else {
      assert (a + b)[1..] == a[1..] + b;
      PartsAppend(a[1..], b);
    }
  }

  /** The query string: the parts joined by `&`. */
  function Query(args: Args): PhpString
  {
    Join(Parts(args), '&')
  }

  /** `&` when `strpos(url, '?')` finds a query already, `?` otherwise. */
  function Separator(url: PhpString): Byte
  {
    if IndexOf(url, '?') < |url| then '&' else '?'
  }

  /**
   * The URL `add_query_args(url, args)` returns: `url` itself when `args` is
   * empty, and otherwise `url` followed by the separator and the query.
   */
  function WithQueryArgs(url: PhpString, args: Args): PhpString
  {
    if args == [] then url else url + [Separator(url)] + Query(args)
  }

  /**
   * The shape of the result: it starts with `url`; it is `url` exactly when
   * `args` is empty; otherwise the next byte is `&` if `url` already has a
   * `?` and `?` if not, and what follows it is one encoded part per entry,
   * in order, joined by `&`. The result has a `?` iff `url` has one or
   * `args` is not empty.
   */
  lemma WithQueryArgsShape(url: PhpString, args: Args)
    ensures var r := WithQueryArgs(url, args);
      && |r| >= |url| && r[..|url|] == url
      && (args == [] <==> r == url)
      && (args != [] ==>
            && r[|url|] == (if '?' in url then '&' else '?')
            && Split(r[|url| + 1..], '&') == Parts(args))
      && ('?' in r <==> '?' in url || args != [])
  {
    var r := WithQueryArgs(url, args);
    if args != [] {
      assert r[..|url|] == url;
      assert r[|url| + 1..] == Query(args);
      PartsAt(args);
      SplitJoin(Parts(args), '&');
    }
  }

  /** `add_query_args`, step by step: collect the parts, then append them. */
  method AddQueryArgs(url: PhpString, args: Args) returns (r: PhpString)
    ensures r == WithQueryArgs(url, args)
  {
    if args == [] {
      return url;
    }
    var parts: seq<PhpString> := [];
    for i := 0 to |args|
      invariant parts == Parts(args[..i])
    {
      assert args[..i + 1] == args[..i] + [args[i]];
      PartsAppend(args[..i], [args[i]]);
      assert Parts([args[i]]) == [Part(args[i])];
      parts := parts + [Part(args[i])];
    }
    assert args[..|args|] == args;
    if IndexOf(url, '?') < |url| {
      r := url + "&" + Join(parts, '&');
    } else {
      r := url + "?" + Join(parts, '&');
    }
  }

  /** Reads one `key=value` part: decodes both sides of the first `=`. */
  function ParsePart(p: PhpString): (PhpString, PhpString)
  {
    var i := IndexOf(p, '=');
    (UrlDecode(p[..i]), if i < |p| then UrlDecode(p[i + 1..]) else [])
  }

  /** Reads a query string back into its entries, in order. */
  function ParseQuery(q: PhpString): (args: Args)
  {
    var pieces := Split(q, '&');
    seq(|pieces|, k requires 0 <= k < |pieces| => ParsePart(pieces[k]))
  }

  /** Splits a URL at its first `?` into the part before and the decoded entries after. */
  function ParseUrl(url: PhpString): (PhpString, Args)
  {
    var i := IndexOf(url, '?');
    if i == |url| then (url, []) else (url[..i], ParseQuery(url[i + 1..]))
  }

  lemma ParsePartOfPart(kv: (PhpString, PhpString))
    ensures ParsePart(Part(kv)) == kv
  {
    UrlEncodeAlphabet(kv.0);
    var ek := UrlEncode(kv.0);
    var p := Part(kv);
    IndexOfAfterPrefix(ek, '=', UrlEncode(kv.1));
    assert p[..|ek|] == ek;
    assert p[|ek| + 1..] == UrlEncode(kv.1);
    DecodeEncode(kv.0);
    DecodeEncode(kv.1);
  }

  /** The query string of a non-empty map reads back as exactly that map, in order. */
  lemma ParseQueryOfQuery(args: Args)
    requires args != []
    ensures ParseQuery(Query(args)) == args
  {
    var parts := Parts(args);
    PartsAt(args);
    SplitJoin(parts, '&');
    forall k | 0 <= k < |args|
      ensures ParseQuery(Query(args))[k] == args[k]
    {
      ParsePartOfPart(args[k]);
    }
  }

  /**
   * For a URL without a query, `add_query_args` is undone by `ParseUrl`:
   * the URL comes back unchanged and the entries come back exactly, in order.
   */
  lemma ParseUrlOfWithQueryArgs(url: PhpString, args: Args)
    requires '?' !in url
    ensures ParseUrl(WithQueryArgs(url, args)) == (url, args)
  {
    var r := WithQueryArgs(url, args);
    if args != [] {
      assert r[..|url|] == url;
      assert r == url + ['?'] + Query(args);
      IndexOfAfterPrefix(url, '?', Query(args));
      assert r[|url| + 1..] == Query(args);
      ParseQueryOfQuery(args);
    }
  }

  /** Two calls in a row append the two maps as if they were one, concatenated. */
  lemma WithQueryArgsTwice(url: PhpString, a: Args, b: Args)
    ensures WithQueryArgs(WithQueryArgs(url, a), b) == WithQueryArgs(url, a + b)
  {
    if a != [] && b != [] {
      PartsAppend(a, b);
      PartsAt(a);
      PartsAt(b);
      JoinAppend(Parts(a), Parts(b), '&');
    } else if a == [] {
      assert a + b == b;
    } else {
      assert a + b == a;
    }
  }

  /** Prefixing a URL with a `?`-free string does not change where the arguments go. */
  lemma PrefixWithQueryArgs(prefix: PhpString, url: PhpString, args: Args)
    requires '?' !in prefix
    ensures prefix + WithQueryArgs(url, args) == WithQueryArgs(prefix + url, args)
  {
    assert ('?' in prefix + url) == ('?' in url);
  }
}
