/** Splitting a gemini reference into host and page, and framing the request line. */
module Url {
  import opened Strings
  import opened Results

  const Scheme: string := "gemini://"

  /** The server to connect to and the page to ask it for. */
  datatype Link = Link(host: string, page: string)

  /** Trimming a reference that starts with the scheme never cuts into the scheme. */
  lemma TrimKeepsScheme(url: string)
    requires StartsWith(url, Scheme)
    ensures StartsWith(Trim(url), Scheme)
  {
    assert url[0] == 'g' && url[8] == '/' by {
      assert url[..9] == Scheme;
    }
    assert SkipWhiteSpace(url, 0) == 0;
    var stop := BackOverWhiteSpace(url, 0, |url|);
    assert !IsWhiteSpace(url[8]);
    assert stop >= 9;
    assert Trim(url)[..9] == url[..9];
  }

  /**
   * `PrepareLink`: a reference without the scheme is refused; otherwise the
   * trimmed remainder after the scheme splits at its first '/' into a host
   * with no '/' and a page that starts with '/'. The two put back behind the
   * scheme give the trimmed reference, except that a reference with no '/'
   * after the scheme gets the page "/".
   */
  function PrepareLink(url: string): (r: Result<Link>)
    ensures r.Err? <==> !StartsWith(url, Scheme)
    ensures r.Err? ==> r.error == InvalidFormat
    ensures r.Ok? ==> '/' !in r.value.host
    ensures r.Ok? ==> |r.value.page| > 0 && r.value.page[0] == '/'
    ensures r.Ok? ==>
              || Scheme + r.value.host + r.value.page == Trim(url)
              || (Scheme + r.value.host == Trim(url) && r.value.page == "/")
  {
    if StartsWith(url, Scheme) then
      TrimKeepsScheme(url);
      var curated := Trim(url)[|Scheme|..];
      var slash := IndexOf(curated, '/');
      var parent := if slash == -1 then curated else curated[..slash];
      var child := if slash == -1 then "/" else (SplitAt(curated, slash); curated[slash..]);
      SchemeAndRemainder(Trim(url), parent, child, slash != -1);
      Ok(Link(parent, child))
    else
      Err(InvalidFormat)
  }

  /** Cutting `s` at `i` and putting the two parts together gives `s` back. */
  lemma SplitAt(s: string, i: nat)
    requires i <= |s|
    ensures s[..i] + s[i..] == s
  {
  }

  /** Putting the remainder of a reference back behind the scheme. */
  lemma SchemeAndRemainder(trimmed: string, parent: string, child: string, slashed: bool)
    requires StartsWith(trimmed, Scheme)
    requires slashed ==> parent + child == trimmed[|Scheme|..]
    requires !slashed ==> parent == trimmed[|Scheme|..] && child == "/"
    ensures || Scheme + parent + child == trimmed
            || (Scheme + parent == trimmed && child == "/")
  {
    assert trimmed == Scheme + trimmed[|Scheme|..];
  }

  /** The request line `gemini://{host}{page}` followed by CR LF. */
  function RequestLine(link: Link): string {
    Scheme + link.host + link.page + "\r\n"
  }

  /**
   * The request line starts with the scheme and ends in CR LF, and for a host
   * with no '/' and a page that starts with '/', the first '/' after the
   * scheme is where the page begins, so the host can be read back from it.
   */
  lemma RequestLineFraming(link: Link)
    ensures var r := RequestLine(link);
            && StartsWith(r, Scheme) && |r| >= |Scheme| + 2 && r[|r| - 2..] == "\r\n"
            && ('/' !in link.host && |link.page| > 0 && link.page[0] == '/' ==>
                  IndexOf(r[|Scheme|..], '/') == |link.host|)
  {
    var tail := link.page + "\r\n";
    var rest := link.host + tail;
    var r := Scheme + rest;
    assert r == RequestLine(link);
    assert r[..|Scheme|] == Scheme && r[|Scheme|..] == rest;
    assert r[|r| - 2..] == tail[|tail| - 2..];
    FirstSlashEndsHost(link.host, tail);
  }

  /** In a host with no '/' followed by a text that starts with '/', the first '/' ends the host. */
  lemma FirstSlashEndsHost(host: string, tail: string)
    ensures '/' !in host && |tail| > 0 && tail[0] == '/' ==> IndexOf(host + tail, '/') == |host|
  {
    if '/' !in host && |tail| > 0 && tail[0] == '/' {
      assert (host + tail)[..|host|] == host;
      IndexOfIs(host + tail, '/', |host|);
    }
  }

  /** For a trimmed reference with a page, the request line is the reference followed by CR LF. */
  lemma RequestLineOfFullReference(url: string)
    requires StartsWith(url, Scheme) && Trim(url) == url
    requires '/' in url[|Scheme|..]
    ensures PrepareLink(url).Ok?
    ensures RequestLine(PrepareLink(url).value) == url + "\r\n"
  {
  }

  /** A reference with no '/' after the scheme is asked for with the page "/": the host is the whole trimmed remainder. */
  lemma RequestLineOfBareHost(url: string)
    requires StartsWith(url, Scheme) && '/' !in url[|Scheme|..]
    ensures PrepareLink(url).Ok?
    ensures |Trim(url)| >= |Scheme|
    ensures PrepareLink(url).value == Link(Trim(url)[|Scheme|..], "/")
    ensures RequestLine(PrepareLink(url).value) == Trim(url) + "/\r\n"
  {
    TrimKeepsScheme(url);
    var trimmed := Trim(url);
    var curated := trimmed[|Scheme|..];
    assert '/' !in curated by {
      assert trimmed == url[..|trimmed|] by {
        assert url[0] == url[..|Scheme|][0];
        assert SkipWhiteSpace(url, 0) == 0;
      }
      forall k | 0 <= k < |curated|
        ensures curated[k] != '/'
      {
        assert curated[k] == url[|Scheme|..][k];
      }
    }
    assert PrepareLink(url) == Ok(Link(curated, "/"));
    assert Scheme + curated == trimmed by {
      assert trimmed[..|Scheme|] == Scheme;
    }
  }

  /**
   * White space after a reference changes nothing. A redirect target is the
   * meta token of a status line that still ends in '\r', and this is why the
   * next request goes to the same host and page as the bare target.
   */
  lemma TrailingWhiteSpaceIgnored(url: string, w: char)
    requires IsWhiteSpace(w)
    ensures PrepareLink(url + [w]) == PrepareLink(url)
  {
    var u := url + [w];
    if StartsWith(url, Scheme) {
      assert u[..|Scheme|] == url[..|Scheme|];
      assert url[0] == url[..|Scheme|][0];
      TrimIgnoresTrailingWhiteSpace(url, w);
    } else if |url| >= |Scheme| {
      assert url[..|Scheme|] == u[..|Scheme|];
    } else if |url| == |Scheme| - 1 {
      assert u[|url|] == w;
    }
  }
}
