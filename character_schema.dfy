/** The character output schema (src/characters/schemas.py) and its
    validator `ensure_id`, which fills a missing `id` from the last path
    segment of the character's url.  URLs are split in the simple form
    `[scheme://host]path[?query][#fragment]`; the id must be a run of decimal
    digits. */
module CharacterSchema {
  import opened Values

  /** The character as the API returns it. */
  datatype CharacterOut = CharacterOut(
    id: Option<int>,
    name: string,
    height: Option<int>,
    hairColor: Option<string>,
    skinColor: Option<string>,
    eyeColor: Option<string>,
    birthYear: Option<string>,
    gender: Option<string>,
    edited: Option<DateTime>,
    created: Option<DateTime>,
    url: Option<string>)

  /** The one error `ensure_id` raises, whatever went wrong underneath. */
  const IdError := ValueError("Could not derive 'id' from 'url'")

  // ----- splitting a url -----

  /** The position of the first `c` in `s`, or `|s|`. */
  function IndexOf(s: string, c: char): (i: nat)
    ensures i <= |s|
    ensures i < |s| ==> s[i] == c
    ensures forall j :: 0 <= j < i ==> s[j] != c
  {
    if s == [] then 0 else if s[0] == c then 0 else 1 + IndexOf(s[1..], c)
  }

  /** `c` does not occur in `s`. */
  predicate NoChar(s: string, c: char) {
    forall j :: 0 <= j < |s| ==> s[j] != c
  }

  /** `s` up to (not including) its first `c`. */
  function Before(s: string, c: char): string {
    s[..IndexOf(s, c)]
  }

  /** A `"://"` starts at position `j` of `s`. */
  predicate SepAt(s: string, j: nat) {
    j + 3 <= |s| && s[j] == ':' && s[j + 1] == '/' && s[j + 2] == '/'
  }

  /** The position of the first `"://"` in `s`, or `|s|`. */
  function SchemeEnd(s: string): (i: nat)
    ensures i <= |s|
    ensures i < |s| ==> SepAt(s, i)
    ensures forall j: nat :: j < i ==> !SepAt(s, j)
  {
    if |s| < 3 then |s|
    else if SepAt(s, 0) then 0
    else
      var i := SchemeEnd(s[1..]);
      assert forall j: nat :: 1 <= j <= |s| ==> SepAt(s, j) == SepAt(s[1..], j - 1);
      1 + i
  }

  /** The url without its fragment, then without its query string. */
  function Cut(url: string): string {
    Before(Before(url, '#'), '?')
  }

  /** The path of a url already cut: after a `scheme://` the host runs up to
      the first `/`; without one the whole text is the path. */
  function PathAfterHost(v: string): string {
    var i := SchemeEnd(v);
    if i < |v| then
      var rest := v[i + 3..];
      rest[IndexOf(rest, '/')..]
    else v
  }

  /** `urlsplit(url).path`. */
  function PathOf(url: string): string {
    PathAfterHost(Cut(url))
  }

  /** `s.rstrip("/")`. */
  function RStripSlashes(s: string): (r: string)
    ensures |r| <= |s| && r == s[..|r|]
    ensures r == [] || r[|r| - 1] != '/'
    ensures forall j :: |r| <= j < |s| ==> s[j] == '/'
  {
    if s != [] && s[|s| - 1] == '/' then RStripSlashes(s[..|s| - 1]) else s
  }

  /** `s.split("/")[-1]`: what follows the last `/` (all of `s` when it has none). */
  function LastSegment(s: string): (r: string)
    ensures |r| <= |s| && r == s[|s| - |r|..]
    ensures NoChar(r, '/')
    ensures |r| < |s| ==> s[|s| - |r| - 1] == '/'
  {
    if s == [] || s[|s| - 1] == '/' then []
    else LastSegment(s[..|s| - 1]) + [s[|s| - 1]]
  }

  /** The most digits `int()` converts from a string (CPython's default
      `sys.int_info.default_max_str_digits`, from 3.11 on); a longer run of
      digits raises `ValueError`. */
  const MaxIntDigits := 4300

  /** `int(seg)`, for the digit-only segments this model admits. */
  function ParseId(seg: string): (r: Result<int, Error>)
    ensures r.Ok? <==> seg != [] && AllDigits(seg) && |seg| <= MaxIntDigits
    ensures r.Ok? ==> r.value >= 0 && r.value == DigitsValue(seg)
    ensures r.Err? ==> r.error == IdError
  {
    if seg != [] && AllDigits(seg) && |seg| <= MaxIntDigits then Ok(DigitsValue(seg)) else Err(IdError)
  }

  /** `path.rstrip("/").split("/")[-1]`. */
  function Segment(path: string): string {
    LastSegment(RStripSlashes(path))
  }

  /** The id derived from a url: the last segment of its path, trailing
      slashes stripped.  A missing url cannot be split. */
  function IdFromUrl(url: Option<string>): (r: Result<int, Error>)
    ensures url.None? ==> r == Err(IdError)
    ensures r.Err? ==> r.error == IdError
    ensures r.Ok? ==> url.Some? && var seg := Segment(PathOf(url.value));
              && seg != [] && AllDigits(seg) && |seg| <= MaxIntDigits && r.value == DigitsValue(seg)
  {
    match url
    case None => Err(IdError)
    case Some(u) => ParseId(Segment(PathOf(u)))
  }

  /** `ensure_id`: an id already set is kept; otherwise it is derived from the
      url, and nothing but `id` changes. */
  function EnsureId(c: CharacterOut): (r: Result<CharacterOut, Error>)
    ensures c.id.Some? ==> r == Ok(c)
    ensures c.id.None? ==> r.Ok? == IdFromUrl(c.url).Ok?
    ensures r.Ok? ==> r.value.id.Some? && r.value == c.(id := r.value.id)
    ensures c.id.None? && r.Ok? ==> r.value.id.value == IdFromUrl(c.url).value >= 0
    ensures c.url.None? && c.id.None? ==> r == Err(IdError)
    ensures r.Err? ==> r.error == IdError
  {
    if c.id.Some? then Ok(c)
    else match IdFromUrl(c.url)
      case Ok(id) => Ok(c.(id := Some(id)))
      case Err(e) => Err(e)
  }

  // ----- what the derivation guarantees -----

  function Slashes(n: nat): (r: string)
    ensures |r| == n && forall j :: 0 <= j < n ==> r[j] == '/'
  {
    seq(n, _ => '/')
  }

  lemma {:induction false} IndexOfAppend(a: string, b: string, c: char)
    ensures NoChar(a, c) ==> IndexOf(a + b, c) == |a| + IndexOf(b, c)
    ensures !NoChar(a, c) ==> IndexOf(a + b, c) == IndexOf(a, c)
    decreases |a|
  {
    if a != [] {
      assert (a + b)[1..] == a[1..] + b;
      if a[0] != c {
        IndexOfAppend(a[1..], b, c);
        assert NoChar(a, c) <==> NoChar(a[1..], c) by {
          forall j | 0 <= j < |a[1..]| ensures a[1..][j] == a[j + 1] { }
        }
      }
    } else {
      assert a + b == b;
    }
  }

  /** A string holding a `"://"` keeps it first whatever is appended. */
  lemma SchemeEndAppend(a: string, b: string)
    requires SchemeEnd(a) < |a|
    ensures SchemeEnd(a + b) == SchemeEnd(a)
  {
    var i := SchemeEnd(a);
    assert forall j: nat :: j <= i ==> SepAt(a + b, j) == SepAt(a, j);
  }

  /** With no `:` in the scheme, the scheme separator is the one after it. */
  lemma SchemeEndAfterScheme(scheme: string, rest: string)
    requires NoChar(scheme, ':')
    ensures SchemeEnd(scheme + "://" + rest) == |scheme|
  {
    var u := scheme + "://" + rest;
    assert SepAt(u, |scheme|);
    forall j: nat | j < |scheme| ensures !SepAt(u, j) {
      assert u[j] == scheme[j];
    }
  }

  /** Trailing slashes make no difference to `rstrip("/")`. */
  lemma {:induction false} StripIgnoresTrailingSlashes(p: string, n: nat)
    ensures RStripSlashes(p + Slashes(n)) == RStripSlashes(p)
    decreases n
  {
    if n > 0 {
      assert (p + Slashes(n))[..|p| + n - 1] == p + Slashes(n - 1);
      StripIgnoresTrailingSlashes(p, n - 1);
    } else {
      assert p + Slashes(n) == p;
    }
  }

  /** The last segment of `x/d` is `d` when `d` holds no `/`. */
  lemma {:induction false} LastSegmentAfterSlash(x: string, d: string)
    requires NoChar(d, '/')
    ensures LastSegment(x + "/" + d) == d
    decreases |d|
  {
    if d == [] {
      assert x + "/" + d == x + "/";
    } else {
      var d' := d[..|d| - 1];
      assert (x + "/" + d)[..|x| + |d|] == x + "/" + d';
      LastSegmentAfterSlash(x, d');
      assert d' + [d[|d| - 1]] == d;
    }
  }

  /** A text with neither `?` nor `#`. */
  predicate Plain(s: string) {
    NoChar(s, '?') && NoChar(s, '#')
  }

  lemma PlainConcat(a: string, b: string)
    requires Plain(a) && Plain(b)
    ensures Plain(a + b)
  {
  }

  /** A url with neither a query nor a fragment is cut nowhere. */
  lemma NothingToCut(u: string)
    requires Plain(u)
    ensures Cut(u) == u
  {
    assert Before(u, '#') == u;
  }

  /** The path of an absolute url with neither a query nor a fragment: what
      follows the host. */
  lemma AbsolutePath(u: string)
    requires Plain(u) && SchemeEnd(u) < |u|
    ensures var rest := u[SchemeEnd(u) + 3..];
            PathOf(u) == rest[IndexOf(rest, '/')..]
  {
    NothingToCut(u);
    assert PathOf(u) == PathAfterHost(u);
  }

  lemma DropOfAppend(a: string, b: string, k: nat)
    requires k <= |a|
    ensures (a + b)[k..] == a[k..] + b
  {
  }

  /** What follows the host keeps a text appended to it, when that text is
      empty or starts a new path segment. */
  lemma AfterHostTakes(rest: string, x: string)
    requires x == [] || x[0] == '/'
    ensures (rest + x)[IndexOf(rest + x, '/')..] == rest[IndexOf(rest, '/')..] + x
  {
    IndexOfAppend(rest, x, '/');
    if NoChar(rest, '/') {
      assert rest[IndexOf(rest, '/')..] == [];
      assert (rest + x)[|rest|..] == x;
    }
  }

  /** A text appended to an absolute url (one with `scheme://`, no query and
      no fragment) lands at the end of its path, when that text is empty or
      starts a new path segment. */
  lemma PathTakes(u: string, x: string)
    requires Plain(u) && Plain(x) && SchemeEnd(u) < |u|
    requires x == [] || x[0] == '/'
    ensures PathOf(u + x) == PathOf(u) + x
  {
    var i := SchemeEnd(u);
    var w := u + x;
    var rest := u[i + 3..];
    assert Plain(w) && SchemeEnd(w) == i by {
      PlainConcat(u, x);
      SchemeEndAppend(u, x);
    }
    assert w[i + 3..] == rest + x by {
      DropOfAppend(u, x, i + 3);
    }
    AbsolutePath(u);
    AbsolutePath(w);
    AfterHostTakes(rest, x);
  }

  /** Appending slashes to an absolute url with no query and no fragment leaves
      the derived id as it was. */
  lemma TrailingSlashesIgnored(u: string, n: nat)
    requires Plain(u) && SchemeEnd(u) < |u|
    ensures IdFromUrl(Some(u + Slashes(n))) == IdFromUrl(Some(u))
  {
    assert Plain(Slashes(n));
    PathTakes(u, Slashes(n));
    StripIgnoresTrailingSlashes(PathOf(u), n);
  }

  /** Cutting drops a query string or a fragment appended to a plain url. */
  lemma CutDropsQueryAndFragment(u: string, tail: string)
    requires Plain(u)
    ensures Cut(u + "?" + tail) == u && Cut(u + "#" + tail) == u
  {
    CutDropsFragment(u, tail);
    CutDropsQuery(u, tail);
  }

  /** Cutting drops a fragment appended to a plain url. */
  lemma CutDropsFragment(u: string, tail: string)
    requires Plain(u)
    ensures Cut(u + "#" + tail) == u
  {
    NothingToCut(u);
    IndexOfAppend(u, "#" + tail, '#');
    assert u + "#" + tail == u + ("#" + tail);
    assert Before(u + "#" + tail, '#') == u;
  }

  /** Cutting drops a query string appended to a plain url, with whatever fragment follows it. */
  lemma CutDropsQuery(u: string, tail: string)
    requires Plain(u)
    ensures Cut(u + "?" + tail) == u
  {
    var q := u + "?" + tail;
    assert NoChar(u + "?", '#');
    IndexOfAppend(u + "?", tail, '#');
    var cut := Before(q, '#');
    assert cut == u + ("?" + Before(tail, '#'));
    IndexOfAppend(u, "?" + Before(tail, '#'), '?');
  }

  /** A query string or a fragment after the path leaves the derived id as it was. */
  lemma QueryAndFragmentIgnored(u: string, tail: string)
    requires Plain(u)
    ensures IdFromUrl(Some(u + "?" + tail)) == IdFromUrl(Some(u))
    ensures IdFromUrl(Some(u + "#" + tail)) == IdFromUrl(Some(u))
  {
    CutDropsQueryAndFragment(u, tail);
    NothingToCut(u);
  }

  /** The last segment of `x/d` followed by slashes is `d`. */
  lemma SegmentOfLast(x: string, d: string, k: nat)
    requires d != [] && NoChar(d, '/')
    ensures Segment(x + "/" + d + Slashes(k)) == d
  {
    StripIgnoresTrailingSlashes(x + "/" + d, k);
    assert (x + "/" + d)[|x| + |d|] == d[|d| - 1];
    LastSegmentAfterSlash(x, d);
  }

  lemma Regroup(u: string, a: string, b: string, c: string)
    ensures u + (a + b + c) == u + a + b + c
  {
  }

  /** A segment appended to an absolute url with no query and no fragment is
      the segment the id is read from, whatever slashes follow it. */
  lemma AppendedSegment(u: string, d: string, k: nat)
    requires Plain(u) && SchemeEnd(u) < |u|
    requires d != [] && Plain(d) && NoChar(d, '/')
    ensures Segment(PathOf(u + "/" + d + Slashes(k))) == d
  {
    var x := "/" + d + Slashes(k);
    assert Plain(x) && x[0] == '/' by {
      assert Plain("/");
      assert Plain(Slashes(k));
      PlainConcat("/", d);
      PlainConcat("/" + d, Slashes(k));
    }
    PathTakes(u, x);
    Regroup(u, "/", d, Slashes(k));
    Regroup(PathOf(u), "/", d, Slashes(k));
    SegmentOfLast(PathOf(u), d, k);
  }

  /** Printing a number as a new last path segment of an absolute url and
      deriving the id back gives the number, with any number of trailing
      slashes. */
  lemma RoundTrip(u: string, n: nat, k: nat)
    requires Plain(u) && SchemeEnd(u) < |u|
    requires |NatToString(n)| <= MaxIntDigits
    ensures IdFromUrl(Some(u + "/" + NatToString(n) + Slashes(k))) == Ok(n)
  {
    var digits := NatToString(n);
    NatToStringRoundTrip(n);
    assert NoChar(digits, '/') && Plain(digits) by {
      forall j | 0 <= j < |digits| ensures digits[j] != '/' && digits[j] != '?' && digits[j] != '#' {
        assert IsDigit(digits[j]);
      }
    }
    AppendedSegment(u, digits, k);
  }

  /** A last segment of more digits than `int()` converts is refused. */
  lemma OverlongSegmentRefused(u: string, d: string, k: nat)
    requires Plain(u) && SchemeEnd(u) < |u|
    requires AllDigits(d) && |d| > MaxIntDigits
    ensures IdFromUrl(Some(u + "/" + d + Slashes(k))) == Err(IdError)
  {
    assert NoChar(d, '/') && Plain(d) by {
      forall j | 0 <= j < |d| ensures d[j] != '/' && d[j] != '?' && d[j] != '#' {
        assert IsDigit(d[j]);
      }
    }
    AppendedSegment(u, d, k);
  }

  /** A last segment that is not a run of digits is refused. */
  lemma NonNumericSegmentRefused(u: string, d: string, k: nat)
    requires Plain(u) && SchemeEnd(u) < |u|
    requires d != [] && Plain(d) && NoChar(d, '/') && !AllDigits(d)
    ensures IdFromUrl(Some(u + "/" + d + Slashes(k))) == Err(IdError)
  {
    AppendedSegment(u, d, k);
  }

  /** The example from the validator's documentation,
      `https://swapi.info/api/people/1/`, written as scheme, separator, host
      and path, and the id with its trailing slash. */
  lemma SwapiExample(url: string)
    requires url == "https" + "://" + "swapi.info/api/people" + "/1/"
    ensures IdFromUrl(Some(url)) == Ok(1)
  {
    var scheme, rest := "https", "swapi.info/api/people";
    var base := scheme + "://" + rest;
    assert Plain(rest);
    SwapiBase(scheme, rest);
    assert "/1/" == "/" + NatToString(1) + Slashes(1) by {
      assert NatToString(1) == "1";
      assert Slashes(1) == "/";
    }
    Regroup(base, "/", NatToString(1), Slashes(1));
    RoundTrip(base, 1, 1);
  }

  /** An `https` url with no query and no fragment is an absolute url whose scheme ends at `://`. */
  lemma SwapiBase(scheme: string, rest: string)
    requires scheme == "https" && Plain(rest)
    ensures Plain(scheme + "://" + rest) && SchemeEnd(scheme + "://" + rest) == |scheme|
  {
    assert NoChar(scheme, ':') && Plain(scheme + "://");
    PlainConcat(scheme + "://", rest);
    SchemeEndAfterScheme(scheme, rest);
  }
}
