/**
 * `is_valid_url`: the pattern
 *   `https?://([a-z.-]|\d{1,3}\.\d{1,3}\.\d{1,3}\.\d{1,3})+(:\d+)?.*`
 * tried with `re.match`, which anchors only at the start. Since the repeated
 * group needs one round only and `(:\d+)?.*` may match nothing, the pattern
 * matches exactly when the URL starts with `http://` or `https://` followed
 * by either one of `a-z . -` or a dotted quad of one-to-three-digit groups.
 *
 * `IsValidUrl` is that prefix test; `RegexMatch` is the language of the
 * pattern written out, and `IsValidUrlIsRegexMatch` proves the two agree.
 */
module UrlValidation {
  import opened Strings

  /** The character class `[a-z.-]`. */
  predicate IsHostChar(c: char)
  {
    'a' <= c <= 'z' || c == '.' || c == '-'
  }

  /** Length of the run of decimal digits at the start of `s`. */
  function DigitRun(s: string): (n: nat)
    ensures n <= |s|
  {
    if s != [] && IsDigit(s[0]) then 1 + DigitRun(s[1..]) else 0
  }

  /** The run holds digits only and stops at the first character that is not one. */
  lemma {:induction false} DigitRunDigits(s: string)
    ensures forall k :: 0 <= k < DigitRun(s) ==> IsDigit(s[k])
    ensures DigitRun(s) < |s| ==> !IsDigit(s[DigitRun(s)])
  {
    if s != [] && IsDigit(s[0]) {
      DigitRunDigits(s[1..]);
    }
  }

  /** `s` starts with `groups` runs of one to three digits, each followed by
      `.`, and then a digit. */
  predicate GroupsThenDigit(s: string, groups: nat)
    decreases groups
  {
    if groups == 0 then s != [] && IsDigit(s[0])
    else
      var n := DigitRun(s);
      1 <= n <= 3 && n < |s| && s[n] == '.' && GroupsThenDigit(s[n + 1..], groups - 1)
  }

  /** What must follow the scheme for the pattern to match. */
  predicate HostStart(rest: string)
  {
    rest != [] && (IsHostChar(rest[0]) || GroupsThenDigit(rest, 3))
  }

  /** `is_valid_url(url)`. */
  predicate IsValidUrl(url: string): (valid: bool)
    ensures valid ==>
              || ("http://" <= url && |url| > 7 && (IsHostChar(url[7]) || IsDigit(url[7])))
              || ("https://" <= url && |url| > 8 && (IsHostChar(url[8]) || IsDigit(url[8])))
    ensures "http://" <= url && |url| > 7 && IsHostChar(url[7]) ==> valid
    ensures "https://" <= url && |url| > 8 && IsHostChar(url[8]) ==> valid
  {
    assert "https://" <= url ==> url[4] != ':';
    if "http://" <= url then HostStart(url[7..])
    else if "https://" <= url then HostStart(url[8..])
    else false
  }

  // ---------------------------------------------------------------------------
  // The language of the pattern

  /** `\d{1,3}` */
  ghost predicate Group(w: string)
  {
    && 1 <= |w| <= 3
    && IsDigit(w[0])
    && (|w| > 1 ==> IsDigit(w[1]))
    && (|w| > 2 ==> IsDigit(w[2]))
  }

  /** `g` groups each followed by `\.`, then one more group. */
  ghost predicate DottedGroups(w: string, g: nat)
    decreases g
  {
    if g == 0 then Group(w)
    else exists i :: 0 < i < |w| && w[i] == '.' && Group(w[..i]) && DottedGroups(w[i + 1..], g - 1)
  }

  /** One round of `([a-z.-]|\d{1,3}\.\d{1,3}\.\d{1,3}\.\d{1,3})`. */
  ghost predicate Atom(w: string)
  {
    (|w| == 1 && IsHostChar(w[0])) || DottedGroups(w, 3)
  }

  /** `(...)+`: one or more rounds. */
  ghost predicate Atoms(w: string)
    decreases |w|
  {
    exists n :: 0 < n <= |w| && Atom(w[..n]) && (n == |w| || Atoms(w[n..]))
  }

  /** `.*`: any characters but a newline. */
  ghost predicate NoNewline(w: string)
  {
    forall k :: 0 <= k < |w| ==> w[k] != '\n'
  }

  /** `(:\d+)?.*` */
  ghost predicate PortAndRest(w: string)
  {
    || NoNewline(w)
    || exists m :: 2 <= m <= |w| && w[0] == ':' && (forall k :: 1 <= k < m ==> IsDigit(w[k])) && NoNewline(w[m..])
  }

  /** Everything after `://`. */
  ghost predicate Body(w: string)
  {
    exists n :: 0 < n <= |w| && Atoms(w[..n]) && PortAndRest(w[n..])
  }

  /** `p` is in the language of the whole pattern. */
  ghost predicate InLanguage(p: string)
  {
    ("http://" <= p && Body(p[7..])) || ("https://" <= p && Body(p[8..]))
  }

  /** `re.match`: some prefix of `url` is in the language. */
  ghost predicate RegexMatch(url: string)
  {
    exists n :: 0 <= n <= |url| && InLanguage(url[..n])
  }

  // ---------------------------------------------------------------------------
  // The prefix test is the regular expression

  lemma IsValidUrlIsRegexMatch(url: string)
    ensures IsValidUrl(url) <==> RegexMatch(url)
  {
    if IsValidUrl(url) {
      ValidMatches(url);
    }
    if RegexMatch(url) {
      MatchIsValid(url);
    }
  }

  /** Characters after the matched prefix never matter. */
  lemma IsValidUrlExtends(url: string, more: string)
    requires IsValidUrl(url)
    ensures IsValidUrl(url + more)
  {
    ValidMatches(url);
    var n :| 0 <= n <= |url| && InLanguage(url[..n]);
    assert (url + more)[..n] == url[..n];
    MatchIsValid(url + more);
  }

  /** The scheme is matched case-sensitively: `HTTP://` is refused. */
  lemma UpperCaseSchemeRefused(rest: string)
    ensures !IsValidUrl("HTTP://" + rest) && !IsValidUrl("HTTPS://" + rest)
  {
    assert ("HTTP://" + rest)[0] == 'H' && ("HTTPS://" + rest)[0] == 'H';
  }

  /** So is a host that starts with a capital letter or an underscore. */
  lemma UnlistedHostStartRefused(scheme: string, c: char, rest: string)
    requires scheme == "http://" || scheme == "https://"
    requires 'A' <= c <= 'Z' || c == '_'
    ensures !IsValidUrl(scheme + [c] + rest)
  {
    var url := scheme + [c] + rest;
    assert url[..|scheme|] == scheme;
    assert url[|scheme|] == c;
    if scheme == "http://" {
      assert url[4] == ':';
    }
  }

  /** A dotted quad of one-to-three-digit groups after the scheme is
      accepted whatever follows it, as in `http://10.0.0.1:9090/x`. */
  lemma DottedQuadAccepted(scheme: string, a: string, b: string, c: string, d: string, tail: string)
    requires scheme == "http://" || scheme == "https://"
    requires Group(a) && Group(b) && Group(c) && Group(d)
    ensures IsValidUrl(scheme + (a + "." + (b + "." + (c + "." + (d + tail)))))
  {
    var r3 := d + tail;
    assert GroupsThenDigit(r3, 0) by {
      assert r3[0] == d[0];
    }
    var r2 := c + "." + r3;
    GroupThenDot(c, r3, 1);
    var r1 := b + "." + r2;
    GroupThenDot(b, r2, 2);
    var rest := a + "." + r1;
    GroupThenDot(a, r1, 3);
    assert rest[0] == a[0];
    SchemeThenHost(scheme, rest);
  }

  lemma GroupThenDot(x: string, r: string, g: nat)
    requires g > 0 && Group(x) && GroupsThenDigit(r, g - 1)
    ensures GroupsThenDigit(x + "." + r, g)
  {
    var s := x + "." + r;
    assert s[|x|] == '.' && s[|x| + 1..] == r;
    assert forall k :: 0 <= k < |x| ==> s[k] == x[k];
    GroupsThenDigitStep(s, |x|, g);
  }

  lemma SchemeThenHost(scheme: string, rest: string)
    requires scheme == "http://" || scheme == "https://"
    requires HostStart(rest)
    ensures IsValidUrl(scheme + rest)
  {
    var url := scheme + rest;
    assert url[..|scheme|] == scheme && url[|scheme|..] == rest;
    if scheme == "https://" {
      assert url[4] == 's';
    }
  }

  // ---------------------------------------------------------------------------
  // Proofs

  lemma ValidMatches(url: string)
    requires IsValidUrl(url)
    ensures RegexMatch(url)
  {
    var s := if "http://" <= url then 7 else 8;
    var rest := url[s..];
    var q := 1;
    if !IsHostChar(rest[0]) {
      q := QuadWitness(rest, 3);
    }
    assert Atom(rest[..q]);
    AtomMatches(url, s, q);
  }

  lemma AtomMatches(url: string, s: nat, q: nat)
    requires (s == 7 && "http://" <= url) || (s == 8 && "https://" <= url)
    requires 0 < q <= |url| - s && Atom(url[s..][..q])
    ensures RegexMatch(url)
  {
    var p := url[..s + q];
    SlicesOfPrefix(url, s, q);
    BodyOfAtom(p[s..]);
    InLanguageIntro(p, s);
  }

  lemma SlicesOfPrefix<T>(u: seq<T>, s: nat, q: nat)
    requires s + q <= |u|
    ensures u[..s + q][s..] == u[s..][..q]
    ensures u[..s + q][..s] == u[..s]
  {
  }

  lemma BodyOfAtom(w: string)
    requires w != [] && Atom(w)
    ensures Body(w)
  {
    assert w[..|w|] == w;
    assert Atoms(w);
    assert NoNewline(w[|w|..]);
  }

  lemma InLanguageIntro(p: string, s: nat)
    requires (s == 7 && "http://" <= p) || (s == 8 && "https://" <= p)
    requires Body(p[s..])
    ensures InLanguage(p)
  {
  }

  /** The dotted quad `GroupsThenDigit` finds, up to its first digit after the last `.`. */
  lemma {:induction false} QuadWitness(s: string, groups: nat) returns (n: nat)
    requires GroupsThenDigit(s, groups)
    ensures 0 < n <= |s| && DottedGroups(s[..n], groups)
    decreases groups
  {
    if groups == 0 {
      n := 1;
      assert Group(s[..1]);
    } else {
      var d := DigitRun(s);
      var t := s[d + 1..];
      assert 0 < d < |s| && s[d] == '.' && GroupsThenDigit(t, groups - 1);
      var q := QuadWitness(t, groups - 1);
      assert Group(s[..d]) by {
        DigitRunDigits(s);
      }
      QuadStep(s, d, t, q, groups);
      n := d + 1 + q;
    }
  }

  lemma QuadStep(s: string, d: nat, t: string, q: nat, g: nat)
    requires g > 0 && 0 < d < |s| && s[d] == '.' && t == s[d + 1..] && q <= |t|
    requires Group(s[..d]) && DottedGroups(t[..q], g - 1)
    ensures DottedGroups(s[..d + 1 + q], g)
  {
    SliceAround(s, d, q);
    DottedGroupsIntro(s[..d + 1 + q], d, g, s[d + 1..][..q]);
  }

  lemma SliceAround<T>(s: seq<T>, d: nat, q: nat)
    requires d + 1 + q <= |s|
    ensures s[..d + 1 + q][d] == s[d]
    ensures s[..d + 1 + q][..d] == s[..d]
    ensures s[..d + 1 + q][d + 1..] == s[d + 1..][..q]
  {
  }

  lemma DottedGroupsIntro(w: string, i: nat, g: nat, tail: string)
    requires g > 0 && 0 < i < |w| && w[i] == '.' && Group(w[..i])
    requires tail == w[i + 1..] && DottedGroups(tail, g - 1)
    ensures DottedGroups(w, g)
  {
  }

  lemma MatchIsValid(url: string)
    requires RegexMatch(url)
    ensures IsValidUrl(url)
  {
    var n :| 0 <= n <= |url| && InLanguage(url[..n]);
    var p := url[..n];
    if "http://" <= p && Body(p[7..]) {
      MatchedPrefixIsValid(url, p, 7);
    } else {
      MatchedPrefixIsValid(url, p, 8);
    }
  }

  lemma MatchedPrefixIsValid(url: string, p: string, s: nat)
    requires p <= url
    requires (s == 7 && "http://" <= p) || (s == 8 && "https://" <= p)
    requires Body(p[s..])
    ensures IsValidUrl(url)
  {
    var w := p[s..];
    FirstAtom(w);
    var a :| 0 < a <= |w| && Atom(w[..a]);
    var rest := url[s..];
    assert w[..a] <= rest by {
      DropPrefix(p, url, s);
    }
    AtomStartsHost(w[..a], rest);
    SchemeOfPrefix(url, p, s);
  }

  lemma SchemeOfPrefix(url: string, p: string, s: nat)
    requires p <= url
    requires (s == 7 && "http://" <= p) || (s == 8 && "https://" <= p)
    requires HostStart(url[s..])
    ensures IsValidUrl(url)
  {
    assert url[..s] == p[..s];
    if s == 8 {
      assert url[4] == 's';
    }
  }

  /** Every body starts with one round of the repeated group. */
  lemma FirstAtom(w: string)
    requires Body(w)
    ensures exists a :: 0 < a <= |w| && Atom(w[..a])
  {
    var m :| 0 < m <= |w| && Atoms(w[..m]) && PortAndRest(w[m..]);
    var a := AtomsFirst(w[..m]);
    assert w[..m][..a] == w[..a];
  }

  lemma AtomsFirst(v: string) returns (a: nat)
    requires Atoms(v)
    ensures 0 < a <= |v| && Atom(v[..a])
  {
    a :| 0 < a <= |v| && Atom(v[..a]) && (a == |v| || Atoms(v[a..]));
  }

  /** A round of the group at the start of `rest` is what `HostStart` looks for. */
  lemma AtomStartsHost(atom: string, rest: string)
    requires atom != [] && Atom(atom) && atom <= rest
    ensures HostStart(rest)
  {
    if !(|atom| == 1 && IsHostChar(atom[0])) {
      DottedPrefix(atom, rest, 3);
    }
  }

  /** A dotted quad at the start of `s` is what `GroupsThenDigit` finds. */
  lemma {:induction false} DottedPrefix(w: string, s: string, g: nat)
    requires DottedGroups(w, g) && w <= s
    ensures GroupsThenDigit(s, g)
    decreases g, 1
  {
    if g == 0 {
      assert s[0] == w[0];
    } else {
      var i :| 0 < i < |w| && w[i] == '.' && Group(w[..i]) && DottedGroups(w[i + 1..], g - 1);
      DottedPrefixStep(w, s, i, g);
    }
  }

  lemma {:induction false} DottedPrefixStep(w: string, s: string, i: nat, g: nat)
    requires g > 0 && 0 < i < |w| && w[i] == '.' && Group(w[..i])
    requires DottedGroups(w[i + 1..], g - 1) && w <= s
    ensures GroupsThenDigit(s, g)
    decreases g, 0
  {
    assert s[i] == '.' && forall k :: 0 <= k < i ==> IsDigit(s[k]) by {
      PrefixAgrees(w, s, i);
    }
    assert w[i + 1..] <= s[i + 1..] by {
      DropPrefix(w, s, i + 1);
    }
    DottedPrefix(w[i + 1..], s[i + 1..], g - 1);
    GroupsThenDigitStep(s, i, g);
  }

  lemma GroupsThenDigitStep(s: string, i: nat, g: nat)
    requires g > 0 && 1 <= i <= 3 && i < |s| && s[i] == '.'
    requires forall k :: 0 <= k < i ==> IsDigit(s[k])
    requires GroupsThenDigit(s[i + 1..], g - 1)
    ensures GroupsThenDigit(s, g)
  {
    DigitRunAt(s, i);
  }

  lemma PrefixAgrees(w: string, s: string, i: nat)
    requires w <= s && i < |w|
    requires w[i] == '.' && Group(w[..i])
    ensures s[i] == '.' && forall k :: 0 <= k < i ==> IsDigit(s[k])
  {
    assert forall k :: 0 <= k < i ==> s[k] == w[k] == w[..i][k];
  }

  lemma DropPrefix<T>(w: seq<T>, s: seq<T>, j: nat)
    requires w <= s && j <= |w|
    ensures w[j..] <= s[j..]
  {
    assert w[j..] == s[j..][..|w| - j];
  }

  /** The digit run ends at the first character that is not a digit. */
  lemma DigitRunAt(s: string, i: nat)
    requires i < |s| && !IsDigit(s[i])
    requires forall k :: 0 <= k < i ==> IsDigit(s[k])
    ensures DigitRun(s) == i
  {
    DigitRunDigits(s);
  }
}
