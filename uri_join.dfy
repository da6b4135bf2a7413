/**
 * `join_uri_path(*args, remove_prefix='/')`: the first argument, with a `/`
 * appended when it lacks one, is extended by each later argument in turn.
 * Each one loses one leading `remove_prefix` and is resolved against the
 * running URL with `urljoin`, the running URL again getting a `/` first when
 * it lacks one.
 *
 * `urljoin` is modelled exactly on one case: an `http`/`https` base that ends
 * in `/` and whose path segments are plain (no empty or dot segments), and a
 * reference that is a plain relative path (no scheme, no `:`, `?`, `#`, `;`,
 * no leading `/`, no empty or dot segments). There the result is the
 * reference merged with the base path (section 5.2.3 of RFC 3986), written
 * back with the scheme lower-cased; removing dot segments and dropping empty
 * segments change nothing. Every other case is delegated to a function the
 * caller supplies, which answers either the joined URL or the message of the
 * `ValueError` that `urlsplit` raises on an invalid IPv6 location; such an
 * error ends `join_uri_path` with that `ValueError`.
 */
module UriJoin {
  import opened Wrappers
  import opened Strings
  import opened UrlParsing

  /** `url`, with a `/` appended exactly when it does not end in one. */
  function EnsureSlash(url: string): (r: string)
    ensures EndsWith(url, '/') ==> r == url
    ensures !EndsWith(url, '/') ==> r == url + "/"
    ensures EndsWith(r, '/')
  {
    if EndsWith(url, '/') then url else url + "/"
  }

  // ---------------------------------------------------------------------------
  // The modelled case of `urljoin`

  predicate IsDotSegment(seg: string)
  {
    (|seg| == 1 && seg[0] == '.') || (|seg| == 2 && seg[0] == '.' && seg[1] == '.')
  }

  /** No segment of `p` is `.` or `..`, and every segment but the last is non-empty. */
  predicate PlainPath(p: string)
    decreases |p|
  {
    var i := IndexOf(p, '/');
    !IsDotSegment(p[..i]) && (i < |p| ==> p[..i] != [] && PlainPath(p[i + 1..]))
  }

  predicate AllSubset(s: string)
  {
    forall k :: 0 <= k < |s| ==> SubsetChar(s[k])
  }

  /** A reference `urljoin` treats as a relative path with nothing to normalise. */
  predicate PlainRelative(ref: string)
  {
    && ref != []
    && ref[0] != '/'
    && ref[0] != ' '
    && AllSubset(ref)
    && (forall k :: 0 <= k < |ref| ==> ref[k] != ':')
    && PlainPath(ref)
  }

  /** A base `urljoin` resolves a plain relative path against without normalising anything. */
  predicate Resolvable(url: string)
  {
    && EndsWith(url, '/')
    && UrlParse(url).Some?
    && var p := UrlParse(url).value;
       && (p.scheme == "http" || p.scheme == "https")
       && p.netloc != []
       && p.path != [] && p.path[0] == '/'
       && PlainPath(p.path[1..])
  }

  /** `urlunparse` of a scheme, a network location and a path, without
      query or fragment. It agrees with Python only when the location is
      nonempty and the path is empty or starts with `/`, which is how it is
      used here (`ResolvableParts`); for other parts `urlunparse` differs. */
  function Unparse(p: UrlParts): string
  {
    p.scheme + "://" + p.netloc + p.path
  }

  /** Parts that `urlunparse` writes as a resolvable URL, and that `urlparse` reads back unchanged. */
  predicate ResolvableParts(p: UrlParts)
  {
    && (p.scheme == "http" || p.scheme == "https")
    && p.netloc != []
    && (forall k :: 0 <= k < |p.netloc| ==> SubsetChar(p.netloc[k]) && p.netloc[k] != '/')
    && DirectoryPath(p.path)
  }

  /** An absolute path ending in `/`, with plain segments. */
  predicate DirectoryPath(path: string)
  {
    path != [] && path[0] == '/' && EndsWith(path, '/') && AllSubset(path) && PlainPath(path[1..])
  }

  /** Everything of `path` up to and including its last `/`. */
  function Directory(path: string): (d: string)
    ensures d <= path
    ensures d == [] || EndsWith(d, '/')
    ensures forall k :: |d| <= k < |path| ==> path[k] != '/'
  {
    if path == [] || EndsWith(path, '/') then path
    else Directory(path[..|path| - 1])
  }

  /** Section 5.2.3 of RFC 3986: the reference replaces the last segment of the base path. */
  function MergePaths(basePath: string, ref: string): string
  {
    Directory(basePath) + ref
  }

  /** `urljoin(base, ref)`: an empty base gives the reference and an empty
      reference the base, neither parsed, so neither raises; `other` stands
      for the cases outside the model, a raise included. */
  function UrlJoin(base: string, ref: string, other: (string, string) -> Result<string, string>): (r: Result<string, string>)
    ensures base == [] ==> r == Success(ref)
    ensures base != [] && ref == [] ==> r == Success(base)
    ensures Resolvable(base) && PlainRelative(ref) ==> r == Success(Unparse(UrlParse(base).value) + ref)
  {
    if base == [] then Success(ref)
    else if ref == [] then Success(base)
    else if Resolvable(base) && PlainRelative(ref) then
      var p := UrlParse(base).value;
      MergeAppends(base, ref);
      Success(Unparse(UrlParts(p.scheme, p.netloc, MergePaths(p.path, ref))))
    else other(base, ref)
  }

  // ---------------------------------------------------------------------------
  // `join_uri_path`

  /** The two ways `join_uri_path` raises: `args[0]` with no argument, and
      a `ValueError` from `urljoin`. */
  datatype JoinError = IndexError | ValueError(message: string)

  /** The running URL after the loop has visited `uris`, or the message of
      the first `urljoin` that raised. */
  function Joined(url: string, uris: seq<string>, removePrefix: string, other: (string, string) -> Result<string, string>): Result<string, string>
    decreases |uris|
  {
    if uris == [] then Success(url)
    else
      match UrlJoin(EnsureSlash(url), RemovePrefix(uris[0], removePrefix), other)
      case Failure(message) => Failure(message)
      case Success(next) => Joined(next, uris[1..], removePrefix, other)
  }

  /** What `join_uri_path(*args, remove_prefix=removePrefix)` returns or raises. */
  function JoinedUrl(args: seq<string>, removePrefix: string, other: (string, string) -> Result<string, string>): (r: Result<string, JoinError>)
    ensures r == Failure(IndexError) <==> args == []
    ensures |args| == 1 ==> r == Success(EnsureSlash(args[0]))
    ensures |args| >= 2 ==>
              var earlier := Joined(EnsureSlash(args[0]), args[1..|args| - 1], removePrefix, other);
              earlier.Failure? ==> r == Failure(ValueError(earlier.error))
    ensures |args| >= 2 ==>
              var earlier := Joined(EnsureSlash(args[0]), args[1..|args| - 1], removePrefix, other);
              earlier.Success? ==>
                var last := UrlJoin(EnsureSlash(earlier.value), RemovePrefix(args[|args| - 1], removePrefix), other);
                && (last.Success? ==> r == Success(last.value))
                && (last.Failure? ==> r == Failure(ValueError(last.error)))
  {
    if args == [] then Failure(IndexError)
    else
      var result: Result<string, JoinError> :=
        match Joined(EnsureSlash(args[0]), args[1..], removePrefix, other)
        case Failure(message) => Failure(ValueError(message))
        case Success(url) => Success(url);
      if |args| >= 2 then
        assert args[1..] == args[1..|args| - 1] + [args[|args| - 1]];
        JoinedSnoc(EnsureSlash(args[0]), args[1..|args| - 1], args[|args| - 1], removePrefix, other);
        result
      else
        result
  }

  /** Once a `urljoin` has raised, later arguments change nothing; otherwise
      the last argument is resolved against the URL the earlier ones built. */
  lemma {:induction false} JoinedSnoc(url: string, uris: seq<string>, u: string, removePrefix: string, other: (string, string) -> Result<string, string>)
    ensures var earlier := Joined(url, uris, removePrefix, other);
            earlier.Failure? ==> Joined(url, uris + [u], removePrefix, other) == earlier
    ensures var earlier := Joined(url, uris, removePrefix, other);
            earlier.Success? ==> Joined(url, uris + [u], removePrefix, other)
                                 == UrlJoin(EnsureSlash(earlier.value), RemovePrefix(u, removePrefix), other)
    decreases |uris|
  {
    if uris == [] {
      assert uris + [u] == [u];
      assert [u][1..] == [];
    } else {
      assert (uris + [u])[0] == uris[0];
      assert (uris + [u])[1..] == uris[1..] + [u];
      match UrlJoin(EnsureSlash(url), RemovePrefix(uris[0], removePrefix), other)
      case Failure(_) =>
      case Success(next) =>
        JoinedSnoc(next, uris[1..], u, removePrefix, other);
    }
  }

  method JoinUriPath(args: seq<string>, removePrefix: string, other: (string, string) -> Result<string, string>)
    returns (r: Result<string, JoinError>)
    ensures r == JoinedUrl(args, removePrefix, other)
  {
    if |args| == 0 {
      return Failure(IndexError);
    }
    ghost var target := Joined(EnsureSlash(args[0]), args[1..], removePrefix, other);
    JoinedUrlOf(args, removePrefix, other);
    var url := args[0];
    if !EndsWith(url, '/') {
      url := url + "/";
    }
    var i := 1;
    while i < |args|
      invariant 1 <= i <= |args|
      invariant Joined(url, args[i..], removePrefix, other) == target
    {
      assert args[i..][1..] == args[i + 1..];
      var joined := JoinTurn(url, args[i], removePrefix, other);
      JoinedStep(url, args[i..], removePrefix, other);
      if joined.Failure? {
        return Failure(ValueError(joined.error));
      }
      url := joined.value;
      i := i + 1;
    }
    return Success(url);
  }

  /** One turn of the loop: the running URL gets its `/`, then the stripped argument is resolved against it. */
  method JoinTurn(url: string, uri: string, removePrefix: string, other: (string, string) -> Result<string, string>)
    returns (joined: Result<string, string>)
    ensures joined == UrlJoin(EnsureSlash(url), RemovePrefix(uri, removePrefix), other)
  {
    var base := url;
    if !EndsWith(base, '/') {
      base := base + "/";
    }
    joined := UrlJoin(base, RemovePrefix(uri, removePrefix), other);
  }

  /** `join_uri_path` raises the `ValueError` of the first `urljoin` that raised, or returns the joined URL. */
  lemma JoinedUrlOf(args: seq<string>, removePrefix: string, other: (string, string) -> Result<string, string>)
    requires args != []
    ensures var joined := Joined(EnsureSlash(args[0]), args[1..], removePrefix, other);
            && (joined.Failure? ==> JoinedUrl(args, removePrefix, other) == Failure(ValueError(joined.error)))
            && (joined.Success? ==> JoinedUrl(args, removePrefix, other) == Success(joined.value))
  {
  }

  /** One turn of the loop: a raise ends the join, anything else continues from the joined URL. */
  lemma JoinedStep(url: string, uris: seq<string>, removePrefix: string, other: (string, string) -> Result<string, string>)
    requires uris != []
    ensures var joined := UrlJoin(EnsureSlash(url), RemovePrefix(uris[0], removePrefix), other);
            && (joined.Failure? ==> Joined(url, uris, removePrefix, other) == Failure(joined.error))
            && (joined.Success? ==> Joined(url, uris, removePrefix, other) == Joined(joined.value, uris[1..], removePrefix, other))
  {
  }

  /** The text the later arguments add when every one is a plain relative
      path once stripped: each stripped argument, with a `/` after every one
      but the last that lacks it. */
  function Appended(uris: seq<string>, removePrefix: string): string
    decreases |uris|
  {
    if uris == [] then []
    else if |uris| == 1 then RemovePrefix(uris[0], removePrefix)
    else EnsureSlash(RemovePrefix(uris[0], removePrefix)) + Appended(uris[1..], removePrefix)
  }

  predicate AllPlain(uris: seq<string>, removePrefix: string)
    decreases |uris|
  {
    uris == [] || (PlainRelative(RemovePrefix(uris[0], removePrefix)) && AllPlain(uris[1..], removePrefix))
  }

  // ---------------------------------------------------------------------------
  // Properties

  /** With the base alone the result is the base with a `/` appended exactly
      when it lacked one, and feeding that result back returns it unchanged. */
  lemma JoinBaseOnly(base: string, removePrefix: string, other: (string, string) -> Result<string, string>)
    ensures JoinedUrl([base], removePrefix, other) == Success(EnsureSlash(base))
    ensures JoinedUrl([EnsureSlash(base)], removePrefix, other) == JoinedUrl([base], removePrefix, other)
  {
    assert [base][1..] == [];
    assert [EnsureSlash(base)][1..] == [];
  }

  /** An argument that is exactly `remove_prefix` leaves the running URL as it was. */
  lemma JoinPrefixOnly(base: string, removePrefix: string, other: (string, string) -> Result<string, string>)
    ensures JoinedUrl([base, removePrefix], removePrefix, other) == Success(EnsureSlash(base))
  {
    var url := EnsureSlash(base);
    assert [base, removePrefix][1..] == [removePrefix];
    assert RemovePrefix(removePrefix, removePrefix) == [];
    assert UrlJoin(EnsureSlash(url), [], other) == Success(url);
    assert Joined(url, [removePrefix], removePrefix, other) == Joined(url, [], removePrefix, other);
  }

  /** A URL written from resolvable parts is resolvable and reads back as those parts. */
  lemma UnparseResolvable(p: UrlParts)
    requires ResolvableParts(p)
    ensures UrlParse(Unparse(p)) == Some(p) && Resolvable(Unparse(p))
  {
    SchemeIsLower(p.scheme);
    UrlParseCompose(p.scheme, p.netloc, p.path);
    var url := Unparse(p);
    assert EndsWith(url, '/') by {
      assert url[|url| - 1] == p.path[|p.path| - 1];
    }
  }

  lemma SchemeIsLower(scheme: string)
    requires scheme == "http" || scheme == "https"
    ensures Lower(scheme) == scheme
    ensures IsAsciiLetter(scheme[0]) && AllSchemeChars(scheme)
  {
    LowerOfLower(scheme);
  }

  /** `urljoin` appends a plain relative path to a URL written from resolvable parts. */
  lemma UrlJoinUnparsed(p: UrlParts, ref: string, other: (string, string) -> Result<string, string>)
    requires ResolvableParts(p) && PlainRelative(ref)
    ensures UrlJoin(Unparse(p), ref, other) == Success(Unparse(p) + ref)
  {
    UnparseResolvable(p);
  }

  /** Appending a plain relative path, and a `/` when it lacks one, to the
      path of resolvable parts keeps them resolvable. */
  lemma ExtendParts(p: UrlParts, ref: string)
    requires ResolvableParts(p) && PlainRelative(ref)
    ensures ResolvableParts(UrlParts(p.scheme, p.netloc, p.path + EnsureSlash(ref)))
    ensures Unparse(UrlParts(p.scheme, p.netloc, p.path + EnsureSlash(ref))) == Unparse(p) + EnsureSlash(ref)
  {
    ExtendPath(p.path, ref);
    Associative(p.scheme + "://" + p.netloc, p.path, EnsureSlash(ref));
  }

  lemma ExtendPath(path: string, ref: string)
    requires DirectoryPath(path) && PlainRelative(ref)
    ensures DirectoryPath(path + EnsureSlash(ref))
  {
    SlashedRelative(ref);
    DirectoryPathConcat(path, EnsureSlash(ref));
  }

  /** A directory path followed by plain segments ending in `/` is a directory path. */
  lemma DirectoryPathConcat(path: string, s: string)
    requires DirectoryPath(path)
    requires s != [] && AllSubset(s) && PlainPath(s) && EndsWith(s, '/')
    ensures DirectoryPath(path + s)
  {
    AllSubsetConcat(path, s);
    PlainTailConcat(path, s);
    assert (path + s)[|path + s| - 1] == s[|s| - 1];
  }

  lemma PlainTailConcat(path: string, s: string)
    requires DirectoryPath(path) && PlainPath(s)
    ensures PlainPath((path + s)[1..])
  {
    assert (path + s)[1..] == path[1..] + s;
    DirectoryTail(path);
    PlainPathConcat(path[1..], s);
  }

  lemma DirectoryTail(path: string)
    requires DirectoryPath(path)
    ensures PlainPath(path[1..]) && (path[1..] == [] || EndsWith(path[1..], '/'))
  {
    if |path| > 1 {
      assert path[1..][|path| - 2] == path[|path| - 1];
    }
  }

  lemma EnsureSlashConcat(a: string, b: string)
    requires b != []
    ensures EnsureSlash(a + b) == a + EnsureSlash(b)
  {
    assert (a + b)[|a + b| - 1] == b[|b| - 1];
  }

  /** When the base, with its `/`, is written from resolvable parts and every
      later argument is a plain relative path once stripped, the result is
      the base followed by the stripped arguments, in order and none dropped. */
  lemma {:induction false} JoinedPlain(url: string, p: UrlParts, uris: seq<string>, removePrefix: string, other: (string, string) -> Result<string, string>)
    requires ResolvableParts(p) && EnsureSlash(url) == Unparse(p) && AllPlain(uris, removePrefix)
    ensures uris != [] ==> Joined(url, uris, removePrefix, other) == Success(Unparse(p) + Appended(uris, removePrefix))
    decreases |uris|
  {
    if uris != [] {
      var ref := RemovePrefix(uris[0], removePrefix);
      var next := Unparse(p) + ref;
      assert Joined(url, uris, removePrefix, other) == Joined(next, uris[1..], removePrefix, other) by {
        UrlJoinUnparsed(p, ref, other);
      }
      if |uris| > 1 {
        var q := UrlParts(p.scheme, p.netloc, p.path + EnsureSlash(ref));
        assert ResolvableParts(q) && EnsureSlash(next) == Unparse(q) == Unparse(p) + EnsureSlash(ref) by {
          ExtendParts(p, ref);
          EnsureSlashConcat(Unparse(p), ref);
        }
        JoinedPlain(next, q, uris[1..], removePrefix, other);
        assert Appended(uris, removePrefix) == EnsureSlash(ref) + Appended(uris[1..], removePrefix);
        Associative(Unparse(p), EnsureSlash(ref), Appended(uris[1..], removePrefix));
      } else {
        assert uris[1..] == [];
      }
    }
  }

  /** `join_uri_path` keeps every plain argument: the result is the base
      followed by all stripped arguments. */
  lemma JoinUriPathPlain(args: seq<string>, p: UrlParts, removePrefix: string, other: (string, string) -> Result<string, string>)
    requires args != [] && ResolvableParts(p) && EnsureSlash(args[0]) == Unparse(p) && AllPlain(args[1..], removePrefix)
    ensures JoinedUrl(args, removePrefix, other) == Success(Unparse(p) + Appended(args[1..], removePrefix))
  {
    if args[1..] == [] {
      assert Unparse(p) + [] == Unparse(p);
    } else {
      JoinedPlain(EnsureSlash(args[0]), p, args[1..], removePrefix, other);
    }
  }

  /** Two path arguments after a base: the first is not dropped. With
      `('https://example.com:443', '/v2/', '/pet/findByStatus/')` and the
      default `remove_prefix` `/` the result is
      `https://example.com:443/v2/pet/findByStatus/`, not the base followed
      by the last argument only. */
  lemma MiddleSegmentKept(base: string, p: UrlParts, first: string, second: string, removePrefix: string, other: (string, string) -> Result<string, string>)
    requires ResolvableParts(p) && EnsureSlash(base) == Unparse(p)
    requires PlainRelative(RemovePrefix(first, removePrefix)) && PlainRelative(RemovePrefix(second, removePrefix))
    ensures JoinedUrl([base, first, second], removePrefix, other)
            == Success(EnsureSlash(base) + EnsureSlash(RemovePrefix(first, removePrefix)) + RemovePrefix(second, removePrefix))
    ensures JoinedUrl([base, first, second], removePrefix, other) != Success(EnsureSlash(base) + RemovePrefix(second, removePrefix))
  {
    var args := [base, first, second];
    var r1, r2 := RemovePrefix(first, removePrefix), RemovePrefix(second, removePrefix);
    assert args[1..] == [first, second];
    assert AllPlain([first, second], removePrefix) && Appended([first, second], removePrefix) == EnsureSlash(r1) + r2 by {
      assert [first, second][1..] == [second];
      assert [second][1..] == [];
      assert Appended([second], removePrefix) == r2;
      assert AllPlain([second], removePrefix);
    }
    JoinUriPathPlain(args, p, removePrefix, other);
    Associative(Unparse(p), EnsureSlash(r1), r2);
  }

  // ---------------------------------------------------------------------------
  // Proofs

  /** Against a resolvable base the merged path is the base path followed by the reference. */
  lemma MergeAppends(base: string, ref: string)
    requires Resolvable(base)
    ensures var p := UrlParse(base).value;
            Unparse(UrlParts(p.scheme, p.netloc, MergePaths(p.path, ref))) == Unparse(p) + ref
  {
    var p := UrlParse(base).value;
    PathEndsWithSlash(base);
    Associative(p.scheme + "://" + p.netloc, p.path, ref);
  }

  lemma PathEndsWithSlash(url: string)
    requires Resolvable(url)
    ensures EndsWith(UrlParse(url).value.path, '/')
  {
    var p := UrlParse(url).value;
    assert HasScheme(url);
    UrlParseRecompose(url);
    var i := IndexOf(url, ':');
    assert url[|url| - 1] == p.path[|p.path| - 1] by {
      assert url == url[..i] + "://" + p.netloc + p.path;
    }
  }

  /** A plain relative path with a `/` appended when it lacks one keeps its characters and stays plain. */
  lemma SlashedRelative(ref: string)
    requires PlainRelative(ref)
    ensures var s := EnsureSlash(ref);
            s != [] && s[0] != '/' && AllSubset(s) && PlainPath(s) && EndsWith(s, '/')
  {
    if !EndsWith(ref, '/') {
      PlainPathSlash(ref);
      AllSubsetConcat(ref, "/");
    }
  }

  lemma AllSubsetConcat(x: string, y: string)
    ensures AllSubset(x + y) <==> AllSubset(x) && AllSubset(y)
  {
    if AllSubset(x + y) {
      assert forall k :: 0 <= k < |x| ==> x[k] == (x + y)[k];
      assert forall k :: 0 <= k < |y| ==> y[k] == (x + y)[|x| + k];
    }
  }

  /** Two plain paths, the first empty or ending in `/`, make a plain path. */
  lemma {:induction false} PlainPathConcat(q: string, s: string)
    requires PlainPath(q) && PlainPath(s)
    requires q == [] || EndsWith(q, '/')
    ensures PlainPath(q + s)
    decreases |q|
  {
    if q != [] {
      var i := IndexOf(q, '/');
      assert i < |q| by {
        assert q[|q| - 1] == '/';
      }
      var t := q[i + 1..];
      assert PlainPath(t + s) by {
        if t != [] {
          assert EndsWith(t, '/') by {
            assert t[|t| - 1] == q[|q| - 1];
          }
          PlainPathConcat(t, s);
        } else {
          assert t + s == s;
        }
      }
      ConcatAfterSegment(q, s, i);
    } else {
      assert q + s == s;
    }
  }

  lemma ConcatAfterSegment(q: string, s: string, i: nat)
    requires i == IndexOf(q, '/') && i < |q| && q[..i] != [] && !IsDotSegment(q[..i])
    requires PlainPath(q[i + 1..] + s)
    ensures PlainPath(q + s)
  {
    assert IndexOf(q + s, '/') == i && (q + s)[..i] == q[..i] && (q + s)[i + 1..] == q[i + 1..] + s by {
      IndexOfWithin(q, s, '/');
    }
  }

  /** A plain path whose last segment is non-empty stays plain with a `/` appended. */
  lemma {:induction false} PlainPathSlash(p: string)
    requires PlainPath(p) && p != [] && !EndsWith(p, '/')
    ensures PlainPath(p + ['/'])
    decreases |p|
  {
    var i := IndexOf(p, '/');
    if i < |p| {
      var t := p[i + 1..];
      assert t != [] && !EndsWith(t, '/') && PlainPath(t) && !IsDotSegment(p[..i]) && p[..i] != [];
      PlainPathSlash(t);
      SlashAfterSegment(p, i);
    } else {
      assert !IsDotSegment(p) && IndexOf(p, '/') == |p|;
      SlashAfterLast(p);
    }
  }

  lemma SlashAfterSegment(p: string, i: nat)
    requires i == IndexOf(p, '/') && i < |p| && p[..i] != [] && !IsDotSegment(p[..i])
    requires PlainPath(p[i + 1..] + ['/'])
    ensures PlainPath(p + ['/'])
  {
    var u := p + ['/'];
    assert IndexOf(u, '/') == i && u[..i] == p[..i] && u[i + 1..] == p[i + 1..] + ['/'] by {
      IndexOfWithin(p, ['/'], '/');
    }
  }

  lemma SlashAfterLast(p: string)
    requires IndexOf(p, '/') == |p| && p != [] && !IsDotSegment(p)
    ensures PlainPath(p + ['/'])
  {
    var u := p + ['/'];
    assert IndexOf(u, '/') == |p| && u[..|p|] == p && u[|p| + 1..] == [] by {
      IndexOfAbsent(p, '/');
      IndexOfConcat(p, ['/'], '/');
    }
  }
}
