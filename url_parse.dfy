/**
 * The part of Python's `urllib.parse.urlparse` that the server-URL parser and
 * the URI joiner depend on: the scheme (lower-cased), the network location
 * after `//`, and the path.
 *
 * The model is exact on a subset of inputs: printable ASCII without the
 * query, fragment and parameter delimiters `?`, `#`, `;` and without the IPv6
 * brackets `[`, `]`, not starting with a space, and not starting with a
 * scheme-like prefix whose first character is not a letter (Python releases
 * disagree about those). Outside the subset `UrlParse` answers `None` and the
 * callers fall back on a function they are given.
 */
module UrlParsing {
  import opened Wrappers
  import opened Strings

  datatype UrlParts = UrlParts(scheme: string, netloc: string, path: string)

  predicate SubsetChar(c: char)
  {
    ' ' <= c <= '~' && c != '?' && c != '#' && c != ';' && c != '[' && c != ']'
  }

  predicate IsAsciiLetter(c: char)
  {
    'a' <= c <= 'z' || 'A' <= c <= 'Z'
  }

  /** The characters Python allows in a scheme. */
  predicate IsSchemeChar(c: char)
  {
    IsAsciiLetter(c) || '0' <= c <= '9' || c == '+' || c == '-' || c == '.'
  }

  predicate AllSchemeChars(s: string)
  {
    forall k :: 0 <= k < |s| ==> IsSchemeChar(s[k])
  }

  /** The text before the first `:` is read as a scheme. */
  predicate HasScheme(url: string)
  {
    var i := IndexOf(url, ':');
    0 < i < |url| && IsAsciiLetter(url[0]) && AllSchemeChars(url[..i])
  }

  /** A scheme-like prefix that does not start with a letter. */
  predicate AmbiguousScheme(url: string)
  {
    var i := IndexOf(url, ':');
    0 < i < |url| && !IsAsciiLetter(url[0]) && AllSchemeChars(url[..i])
  }

  predicate InSubset(url: string)
  {
    && (forall k :: 0 <= k < |url| ==> SubsetChar(url[k]))
    && (url == [] || url[0] != ' ')
    && !AmbiguousScheme(url)
  }

  /** Splits what follows the scheme: a network location after `//`, which
      runs up to the next `/`, and the path. */
  function SplitNetloc(rest: string): (r: (string, string))
    ensures r.0 != [] ==> rest == "//" + r.0 + r.1
    ensures forall k :: 0 <= k < |r.0| ==> r.0[k] != '/'
    ensures r.1 == [] || r.1[0] == '/' || r.0 == []
    ensures "//" <= rest ==> rest == "//" + r.0 + r.1 && (r.1 == [] || r.1[0] == '/')
    ensures !("//" <= rest) ==> r == ([], rest)
  {
    if |rest| >= 2 && rest[0] == '/' && rest[1] == '/' then
      var j := 2 + IndexOf(rest[2..], '/');
      assert rest == "//" + rest[2..j] + rest[j..];
      (rest[2..j], rest[j..])
    else ([], rest)
  }

  /** `urlparse(url)` on the modelled subset, `None` outside it. */
  function UrlParse(url: string): (r: Option<UrlParts>)
    ensures r.Some? <==> InSubset(url)
    ensures r.Some? ==> NoUpper(r.value.scheme)
    ensures r.Some? && !HasScheme(url) ==> r.value.scheme == []
  {
    if !InSubset(url) then None
    else
      var i := IndexOf(url, ':');
      var scheme := if HasScheme(url) then Lower(url[..i]) else [];
      var rest := if HasScheme(url) then url[i + 1..] else url;
      var (netloc, path) := SplitNetloc(rest);
      Some(UrlParts(scheme, netloc, path))
  }

  /** A URL made of a scheme, `://`, a network location and a path parses
      back into those three parts, with the scheme lower-cased. */
  lemma UrlParseCompose(scheme: string, netloc: string, path: string)
    requires scheme != [] && IsAsciiLetter(scheme[0]) && AllSchemeChars(scheme)
    requires forall k :: 0 <= k < |netloc| ==> SubsetChar(netloc[k]) && netloc[k] != '/'
    requires path == [] || path[0] == '/'
    requires forall k :: 0 <= k < |path| ==> SubsetChar(path[k])
    ensures UrlParse(scheme + "://" + netloc + path) == Some(UrlParts(Lower(scheme), netloc, path))
  {
    var rest := "//" + netloc + path;
    var url := scheme + "://" + netloc + path;
    assert url == scheme + [':'] + rest by {
      ColonThenRest(scheme, rest, netloc, path);
    }
    assert IndexOf(url, ':') == |scheme| by {
      assert forall k :: 0 <= k < |scheme| ==> scheme[k] != ':';
      IndexOfConcat(scheme, [':'] + rest, ':');
      assert url == scheme + ([':'] + rest);
    }
    assert url[..|scheme|] == scheme && url[|scheme| + 1..] == rest;
    assert InSubset(url) && HasScheme(url) by {
      SubsetOfParts(scheme, netloc, path);
    }
    assert SplitNetloc(rest) == (netloc, path) by {
      SplitNetlocOfParts(netloc, path);
    }
  }

  lemma SubsetOfParts(scheme: string, netloc: string, path: string)
    requires scheme != [] && IsAsciiLetter(scheme[0]) && AllSchemeChars(scheme)
    requires forall k :: 0 <= k < |netloc| ==> SubsetChar(netloc[k])
    requires forall k :: 0 <= k < |path| ==> SubsetChar(path[k])
    ensures InSubset(scheme + "://" + netloc + path)
  {
    var url := scheme + "://" + netloc + path;
    forall k | 0 <= k < |url|
      ensures SubsetChar(url[k])
    {
      if k < |scheme| {
        assert url[k] == scheme[k];
      } else if k < |scheme| + 3 {
      } else if k < |scheme| + 3 + |netloc| {
        assert url[k] == netloc[k - |scheme| - 3];
      } else {
        assert url[k] == path[k - |scheme| - 3 - |netloc|];
      }
    }
    assert url[0] == scheme[0];
  }

  lemma SplitNetlocOfParts(netloc: string, path: string)
    requires forall k :: 0 <= k < |netloc| ==> netloc[k] != '/'
    requires path == [] || path[0] == '/'
    ensures SplitNetloc("//" + netloc + path) == (netloc, path)
  {
    var rest := "//" + netloc + path;
    assert rest[2..] == netloc + path;
    IndexOfConcat(netloc, path, '/');
    if path != [] {
      assert IndexOf(path, '/') == 0;
    }
  }

  /** Conversely, when a URL with a scheme has a network location, it is the
      scheme text, `://`, that location and the path, in that order. */
  lemma UrlParseRecompose(url: string)
    requires UrlParse(url).Some? && UrlParse(url).value.netloc != [] && HasScheme(url)
    ensures var p := UrlParse(url).value;
            var i := IndexOf(url, ':');
            url == url[..i] + "://" + p.netloc + p.path && Lower(url[..i]) == p.scheme
  {
    var p := UrlParse(url).value;
    var i := IndexOf(url, ':');
    var rest := url[i + 1..];
    assert p.scheme == Lower(url[..i]) && (p.netloc, p.path) == SplitNetloc(rest) by {
      assert InSubset(url) && HasScheme(url);
    }
    assert url == url[..i] + [':'] + rest by {
      Around(url, i);
    }
    ColonThenRest(url[..i], rest, p.netloc, p.path);
  }

  /** The network location never holds a `/`. */
  lemma UrlParseNetloc(url: string)
    requires UrlParse(url).Some?
    ensures forall k :: 0 <= k < |UrlParse(url).value.netloc| ==> UrlParse(url).value.netloc[k] != '/'
  {
  }

  lemma ColonThenRest(a: string, rest: string, netloc: string, path: string)
    requires rest == "//" + netloc + path
    ensures a + [':'] + rest == a + "://" + netloc + path
  {
  }

  /** `urlparse` with the behaviour outside the modelled subset supplied by
      the caller, either the parts or the message of the `ValueError` it
      raises (as on unbalanced IPv6 brackets). Inside the subset it never raises. */
  function UrlParseWith(url: string, other: string -> Result<UrlParts, string>): (r: Result<UrlParts, string>)
    ensures InSubset(url) ==> r.Success? && Some(r.value) == UrlParse(url)
    ensures !InSubset(url) ==> r == other(url)
  {
    match UrlParse(url)
    case Some(parts) => Success(parts)
    case None => other(url)
  }
}
