/** The event URL lister (`get_ufc_event_urls_for_year` in data/url.py): choose the
    response encoding from the Content-Type header, then walk the year's archive listing
    and collect the (title, absolute URL) pair of every UFC event, once each, in page
    order.

    The page arrives already parsed: one `ListingRow` per `tr.decision` row, holding the
    first `td.list a` link if there is one. Resolving an `href` against the site root is
    URL reference resolution (section 5.2 of RFC 3986) and is a parameter `join`.
 */
module EventUrls {
  import opened Wrappers
  import opened Dedup

  /** The site root every event link is resolved against. */
  const Base: string := "https://mmadecisions.com"

  /** Only events whose title starts with this are kept. */
  const UfcPrefix: string := "UFC"

  /** The literal that introduces the encoding parameter of a Content-Type value. */
  const CharsetMarker: string := "charset="

  /** An event link: its text with surrounding whitespace stripped, and its `href`
      attribute when the tag has one. */
  datatype Link = Link(title: string, href: Option<string>)

  /** One listing row: the link in its event column, if any. */
  datatype ListingRow = ListingRow(link: Option<Link>)

  /** Looking up `href` on a link without one raises KeyError, which ends the whole
      call; `row` is the position of that row in the listing. */
  datatype ListError = MissingHref(row: nat)

  /** (event title, absolute event URL) */
  type Pair = (string, string)

  predicate StartsWith(s: string, p: string) {
    |p| <= |s| && s[..|p|] == p
  }

  // ---------------------------------------------------------------------------
  // Encoding
  // ---------------------------------------------------------------------------

  /** `charset=` starts at `i` and is followed by at least one character other than `;`:
      the positions where the header pattern matches. */
  predicate CharsetAt(ct: string, i: int) {
    && 0 <= i
    && i + |CharsetMarker| < |ct|
    && ct[i..i + |CharsetMarker|] == CharsetMarker
    && ct[i + |CharsetMarker|] != ';'
  }

  /** `v` is the whole run of non-`;` characters of `ct` that starts at `start`. */
  predicate RunAt(ct: string, start: int, v: string) {
    && 0 <= start
    && start + |v| <= |ct|
    && ct[start..start + |v|] == v
    && ';' !in v
    && (start + |v| == |ct| || ct[start + |v|] == ';')
  }

  /** The longest prefix of `s` holding no `;`. */
  function UpToSemicolon(s: string): (p: string)
    ensures RunAt(s, 0, p)
  {
    if |s| == 0 || s[0] == ';' then []
    else
      var rest := UpToSemicolon(s[1..]);
      assert s[1..][..|rest|] == rest;
      [s[0]] + rest
  }

  function FirstCharsetFrom(ct: string, from: nat): (r: Option<nat>)
    ensures r.Some? ==> from <= r.value && CharsetAt(ct, r.value)
    ensures r.Some? ==> forall j :: from <= j < r.value ==> !CharsetAt(ct, j)
    ensures r.None? ==> forall j :: from <= j ==> !CharsetAt(ct, j)
    decreases |ct| - from
  {
    if from + |CharsetMarker| >= |ct| then None
    else if CharsetAt(ct, from) then Some(from)
    else FirstCharsetFrom(ct, from + 1)
  }

  /** The encoding named by a Content-Type value: at the leftmost place where `charset=`
      is followed by a character other than `;`, the whole run of non-`;` characters
      after it. None when there is no such place. */
  function CharsetParam(ct: string): (cs: Option<string>)
    ensures cs.None? <==> forall i :: !CharsetAt(ct, i)
    ensures cs.Some? ==>
      exists i :: && CharsetAt(ct, i)
                  && (forall j :: 0 <= j < i ==> !CharsetAt(ct, j))
                  && RunAt(ct, i + |CharsetMarker|, cs.value)
    ensures cs.Some? ==> |cs.value| > 0
  {
    match FirstCharsetFrom(ct, 0)
    case None => None
    case Some(i) =>
      var v := UpToSemicolon(ct[i + |CharsetMarker|..]);
      assert RunAt(ct, i + |CharsetMarker|, v) by {
        var rest := ct[i + |CharsetMarker|..];
        assert rest[..|v|] == ct[i + |CharsetMarker|..i + |CharsetMarker| + |v|];
      }
      Some(v)
  }

  /** The encoding the response is decoded with: the header's charset when it names
      one, else the library's guess. A missing Content-Type header reads as empty. */
  function ResponseEncoding(contentType: Option<string>, guess: string): (enc: string)
    ensures (forall i :: !CharsetAt(contentType.GetOr(""), i)) ==> enc == guess
    ensures (exists i :: CharsetAt(contentType.GetOr(""), i)) ==>
      exists i :: && CharsetAt(contentType.GetOr(""), i)
                  && (forall j :: 0 <= j < i ==> !CharsetAt(contentType.GetOr(""), j))
                  && RunAt(contentType.GetOr(""), i + |CharsetMarker|, enc)
  {
    match CharsetParam(contentType.GetOr(""))
    case Some(cs) => cs
    case None => guess
  }

  /** A header naming a charset gives that charset, up to the next `;`. */
  lemma CharsetExample(guess: string)
    ensures ResponseEncoding(Some("text/html; charset=ISO-8859-1; x=y"), guess) == "ISO-8859-1"
  {
    var pre, v, post := "text/html; ", "ISO-8859-1", "; x=y";
    var b := "text/html; charset=ISO-8859-1; x=y";
    assert b == pre + CharsetMarker + v + post;
    assert '=' !in b[7..18];
    forall j | 0 <= j < |pre|
      ensures !CharsetAt(b, j)
    {
      assert b[j + 7] in b[7..18];
      NoMarkerAt(b, j);
    }
    CharsetOfParts(pre, v, post);
  }

  /** No match starts where the marker's `=` is missing. */
  lemma NoMarkerAt(ct: string, i: int)
    requires 0 <= i && i + |CharsetMarker| <= |ct| && ct[i + |CharsetMarker| - 1] != '='
    ensures !CharsetAt(ct, i)
  {
    assert ct[i..i + |CharsetMarker|][|CharsetMarker| - 1] == ct[i + |CharsetMarker| - 1];
  }

  /** When no match starts inside `pre`, the charset of `pre`, the marker, a run `v` and
      a `;`-led tail is `v`. */
  lemma CharsetOfParts(pre: string, v: string, post: string)
    requires forall j :: 0 <= j < |pre| ==> !CharsetAt(pre + CharsetMarker + v + post, j)
    requires |v| > 0 && ';' !in v && |post| > 0 && post[0] == ';'
    ensures CharsetParam(pre + CharsetMarker + v + post) == Some(v)
  {
    var b := pre + CharsetMarker + v + post;
    var at := |pre| + |CharsetMarker|;
    assert b[|pre|..at] == CharsetMarker by {
      SliceOfConcat(pre, CharsetMarker, v + post);
      assert b == pre + CharsetMarker + (v + post);
    }
    assert b[at..] == v + post;
    assert b[at] == v[0];
    assert CharsetAt(b, |pre|);
    FirstIsLeftmost(b, 0, |pre|);
    UpToSemicolonOf(v, post);
  }

  lemma SliceOfConcat(x: string, y: string, z: string)
    ensures (x + y + z)[|x|..|x| + |y|] == y
  {
  }

  /** Without a charset parameter, or without the header, the guess is used. */
  lemma NoCharsetExample(guess: string)
    ensures ResponseEncoding(Some("text/html"), guess) == guess
    ensures ResponseEncoding(Some("text/html; charset=;"), guess) == guess
    ensures ResponseEncoding(None, guess) == guess
  {
    var a := "text/html";
    forall j | 0 <= j
      ensures !CharsetAt(a, j)
    {
      if j + 8 < |a| {
        assert a[j..j + 8][0] == 't';
      }
    }
    var c := "text/html; charset=;";
    forall j | 0 <= j
      ensures !CharsetAt(c, j)
    {
      if j == 11 {
        assert c[19] == ';';
      } else if j + 8 < |c| {
        assert c[j..j + 8][7] == c[j + 7] != '=';
      }
    }
  }

  lemma UpToSemicolonOf(v: string, rest: string)
    requires ';' !in v
    requires |rest| > 0 && rest[0] == ';'
    ensures UpToSemicolon(v + rest) == v
  {
    if |v| > 0 {
      var s := v + rest;
      assert s[0] == v[0] && v[0] != ';';
      assert s[1..] == v[1..] + rest;
      assert ';' !in v[1..];
      UpToSemicolonOf(v[1..], rest);
      assert UpToSemicolon(s) == [v[0]] + UpToSemicolon(s[1..]);
      assert [v[0]] + v[1..] == v;
    } else {
      assert v + rest == rest;
    }
  }

  /** The scan stops at the leftmost match. */
  lemma {:induction false} FirstIsLeftmost(ct: string, from: nat, i: nat)
    requires from <= i && CharsetAt(ct, i)
    requires forall j :: from <= j < i ==> !CharsetAt(ct, j)
    ensures FirstCharsetFrom(ct, from) == Some(i)
    decreases i - from
  {
    if from < i {
      FirstIsLeftmost(ct, from + 1, i);
    }
  }

  // ---------------------------------------------------------------------------
  // Listing
  // ---------------------------------------------------------------------------

  /** The row links to an event whose title starts with "UFC". */
  predicate IsUfc(row: ListingRow) {
    row.link.Some? && StartsWith(row.link.value.title, UfcPrefix)
  }

  /** Every row that has a link has an `href` on it, from `from` on. */
  predicate HrefsPresent(rows: seq<ListingRow>, from: nat) {
    forall i :: from <= i < |rows| && rows[i].link.Some? ==> rows[i].link.value.href.Some?
  }

  function PairOf(l: Link, join: (string, string) -> string): Pair
    requires l.href.Some?
  {
    (l.title, join(Base, l.href.value))
  }

  /** `r` lists, in order, the pair of exactly the UFC rows of `rows` from `from` on, at
      the strictly increasing positions `idx`. */
  ghost predicate ListedAt(
    r: seq<Pair>, rows: seq<ListingRow>, join: (string, string) -> string, from: nat, idx: seq<int>)
  {
    && |idx| == |r|
    && (forall k :: 0 <= k < |idx| ==>
          && from <= idx[k] < |rows|
          && IsUfc(rows[idx[k]])
          && rows[idx[k]].link.value.href.Some?
          && r[k] == PairOf(rows[idx[k]].link.value, join))
    && (forall k, l :: 0 <= k < l < |idx| ==> idx[k] < idx[l])
    && (forall i :: from <= i < |rows| && IsUfc(rows[i]) ==> i in idx)
  }

  /** The pairs of the UFC rows from `from` on, before duplicates are removed: rows
      without a link are skipped, and the first linked row (UFC or not) without an
      `href` makes the whole listing fail. */
  function UfcPairs(rows: seq<ListingRow>, join: (string, string) -> string, from: nat)
    : (r: Result<seq<Pair>, ListError>)
    requires from <= |rows|
    ensures r.Success? <==> HrefsPresent(rows, from)
    ensures r.Failure? ==>
      && from <= r.error.row < |rows|
      && rows[r.error.row].link.Some? && rows[r.error.row].link.value.href.None?
      && (forall j :: from <= j < r.error.row && rows[j].link.Some? ==> rows[j].link.value.href.Some?)
    ensures r.Success? ==> |r.value| <= |rows| - from
    ensures r.Success? ==> forall k :: 0 <= k < |r.value| ==> StartsWith(r.value[k].0, UfcPrefix)
    decreases |rows| - from
  {
    if from == |rows| then Success([])
    else
      var row := rows[from];
      if row.link.None? then UfcPairs(rows, join, from + 1)
      else if row.link.value.href.None? then Failure(MissingHref(from))
      else
        var rest :- UfcPairs(rows, join, from + 1);
        if StartsWith(row.link.value.title, UfcPrefix)
        then Success([PairOf(row.link.value, join)] + rest)
        else Success(rest)
  }

  /** The pre-deduplication list is the UFC rows' pairs, every one of them, in row order. */
  lemma {:induction false} UfcPairsPositions(
    rows: seq<ListingRow>, join: (string, string) -> string, from: nat)
    returns (idx: seq<int>)
    requires from <= |rows|
    requires UfcPairs(rows, join, from).Success?
    ensures ListedAt(UfcPairs(rows, join, from).value, rows, join, from, idx)
    decreases |rows| - from
  {
    if from == |rows| {
      idx := [];
    } else {
      var row := rows[from];
      var rest := UfcPairsPositions(rows, join, from + 1);
      var tail := UfcPairs(rows, join, from + 1).value;
      if IsUfc(row) {
        var p := PairOf(row.link.value, join);
        assert UfcPairs(rows, join, from).value == [p] + tail;
        idx := [from] + rest;
        ListedCons(tail, rows, join, from, rest);
      } else {
        assert UfcPairs(rows, join, from).value == tail;
        idx := rest;
        ListedSkip(tail, rows, join, from, rest);
      }
    }
  }

  lemma ListedCons(
    tail: seq<Pair>, rows: seq<ListingRow>, join: (string, string) -> string, from: nat, rest: seq<int>)
    requires from < |rows| && IsUfc(rows[from]) && rows[from].link.value.href.Some?
    requires ListedAt(tail, rows, join, from + 1, rest)
    ensures ListedAt([PairOf(rows[from].link.value, join)] + tail, rows, join, from, [from] + rest)
  {
    var r := [PairOf(rows[from].link.value, join)] + tail;
    var idx := [from] + rest;
    forall k | 0 <= k < |idx|
      ensures && from <= idx[k] < |rows|
              && IsUfc(rows[idx[k]])
              && rows[idx[k]].link.value.href.Some?
              && r[k] == PairOf(rows[idx[k]].link.value, join)
    {
      if k > 0 {
        assert idx[k] == rest[k - 1] && r[k] == tail[k - 1];
      }
    }
    forall k, l | 0 <= k < l < |idx|
      ensures idx[k] < idx[l]
    {
      assert idx[l] == rest[l - 1];
      if k > 0 {
        assert idx[k] == rest[k - 1];
      }
    }
    forall i | from <= i < |rows| && IsUfc(rows[i])
      ensures i in idx
    {
      if i > from {
        assert i in rest;
      }
    }
  }

  lemma ListedSkip(
    tail: seq<Pair>, rows: seq<ListingRow>, join: (string, string) -> string, from: nat, rest: seq<int>)
    requires from < |rows| && !IsUfc(rows[from])
    requires ListedAt(tail, rows, join, from + 1, rest)
    ensures ListedAt(tail, rows, join, from, rest)
  {
  }

  function PairKey(p: Pair): Pair {
    p
  }

  /** The lister: the UFC events of one year's archive listing as (title, URL) pairs,
      each pair once, at its first place in the page. */
  function EventUrlsForYear(rows: seq<ListingRow>, join: (string, string) -> string)
    : (r: Result<seq<Pair>, ListError>)
    ensures r.Success? <==> HrefsPresent(rows, 0)
    ensures r.Success? ==> |r.value| <= |rows|
    ensures r.Success? ==> forall k :: 0 <= k < |r.value| ==> StartsWith(r.value[k].0, UfcPrefix)
    ensures r.Success? ==> forall k, l :: 0 <= k < l < |r.value| ==> r.value[k] != r.value[l]
    ensures r.Success? ==> forall i :: 0 <= i < |rows| && IsUfc(rows[i]) ==>
      PairOf(rows[i].link.value, join) in r.value
  {
    var pairs :- UfcPairs(rows, join, 0);
    var kept := KeepFirst(pairs, PairKey);
    KeepFirstUnique(pairs, PairKey);
    KeepFirstKeys(pairs, PairKey);
    assert forall i :: 0 <= i < |rows| && IsUfc(rows[i]) ==> PairOf(rows[i].link.value, join) in kept by {
      var pidx := UfcPairsPositions(rows, join, 0);
      forall i | 0 <= i < |rows| && IsUfc(rows[i])
        ensures PairOf(rows[i].link.value, join) in kept
      {
        var k :| 0 <= k < |pidx| && pidx[k] == i;
        assert PairKey(pairs[k]) in KeysOf(kept, PairKey);
      }
    }
    Success(kept)
  }

  /** Order: the result is the UFC rows' pairs taken at strictly increasing rows, each
      at the first UFC row that carries it. */
  lemma EventUrlsFirstSeen(rows: seq<ListingRow>, join: (string, string) -> string)
    returns (at: seq<int>)
    requires EventUrlsForYear(rows, join).Success?
    ensures |at| == |EventUrlsForYear(rows, join).value|
    ensures forall k :: 0 <= k < |at| ==>
      && 0 <= at[k] < |rows| && IsUfc(rows[at[k]])
      && rows[at[k]].link.value.href.Some?
      && EventUrlsForYear(rows, join).value[k] == PairOf(rows[at[k]].link.value, join)
    ensures forall k, l :: 0 <= k < l < |at| ==> at[k] < at[l]
    ensures forall k, i :: 0 <= k < |at| && 0 <= i < at[k] && IsUfc(rows[i]) ==>
      PairOf(rows[i].link.value, join) != EventUrlsForYear(rows, join).value[k]
  {
    var pairs := UfcPairs(rows, join, 0).value;
    assert EventUrlsForYear(rows, join).value == KeepFirst(pairs, PairKey);
    var didx := KeepFirstPositions(pairs, PairKey);
    var pidx := UfcPairsPositions(rows, join, 0);
    at := ComposePositions(rows, join, pairs, pidx, KeepFirst(pairs, PairKey), didx);
  }

  /** The positions of the kept pairs among the rows: the positions among the pairs of
      the kept ones, read through the positions of the pairs among the rows. */
  lemma ComposePositions(rows: seq<ListingRow>, join: (string, string) -> string,
                         pairs: seq<Pair>, pidx: seq<int>, r: seq<Pair>, didx: seq<int>)
    returns (at: seq<int>)
    requires ListedAt(pairs, rows, join, 0, pidx)
    requires SelectedAt(r, pairs, didx)
    requires forall i :: 0 <= i < |pairs| ==> (i in didx <==> IsFirstOfKey(pairs, PairKey, i))
    ensures |at| == |r|
    ensures forall k :: 0 <= k < |at| ==>
      && 0 <= at[k] < |rows| && IsUfc(rows[at[k]])
      && rows[at[k]].link.value.href.Some?
      && r[k] == PairOf(rows[at[k]].link.value, join)
    ensures forall k, l :: 0 <= k < l < |at| ==> at[k] < at[l]
    ensures forall k, i :: 0 <= k < |at| && 0 <= i < at[k] && IsUfc(rows[i]) ==>
      PairOf(rows[i].link.value, join) != r[k]
  {
    at := seq(|didx|, k requires 0 <= k < |didx| => pidx[didx[k]]);
    forall k, l | 0 <= k < l < |at|
      ensures at[k] < at[l]
    {
      assert pidx[didx[k]] < pidx[didx[l]];
    }
    forall k, i | 0 <= k < |at| && 0 <= i < at[k] && IsUfc(rows[i])
      ensures PairOf(rows[i].link.value, join) != r[k]
    {
      var m :| 0 <= m < |pidx| && pidx[m] == i;
      IncreasingReflects(pidx, m, didx[k]);
      assert IsFirstOfKey(pairs, PairKey, didx[k]);
      assert PairKey(pairs[m]) != PairKey(pairs[didx[k]]);
    }
  }

  /** In a strictly increasing sequence, a smaller value sits at an earlier position. */
  lemma IncreasingReflects(s: seq<int>, a: int, b: int)
    requires forall k, l :: 0 <= k < l < |s| ==> s[k] < s[l]
    requires 0 <= a < |s| && 0 <= b < |s| && s[a] < s[b]
    ensures a < b
  {
  }

  /** Listing again what the lister returned changes nothing. */
  lemma EventUrlsIdempotent(rows: seq<ListingRow>, join: (string, string) -> string)
    requires EventUrlsForYear(rows, join).Success?
    ensures KeepFirst(EventUrlsForYear(rows, join).value, PairKey) == EventUrlsForYear(rows, join).value
  {
    KeepFirstIdempotent(UfcPairs(rows, join, 0).value, PairKey);
  }

  /** Five linked rows of which two are UFC events: exactly those two pairs, in order. */
  lemma FiveRowsTwoUfc(join: (string, string) -> string)
    ensures EventUrlsForYear([
      ListingRow(Some(Link("UFC 300", Some("e/1")))),
      ListingRow(Some(Link("PFL 1", Some("e/2")))),
      ListingRow(Some(Link("UFC 301", Some("e/3")))),
      ListingRow(Some(Link("ONE 165", Some("e/4")))),
      ListingRow(Some(Link("Bellator 301", Some("e/5"))))], join)
      == Success([("UFC 300", join(Base, "e/1")), ("UFC 301", join(Base, "e/3"))])
  {
    var rows := [
      ListingRow(Some(Link("UFC 300", Some("e/1")))),
      ListingRow(Some(Link("PFL 1", Some("e/2")))),
      ListingRow(Some(Link("UFC 301", Some("e/3")))),
      ListingRow(Some(Link("ONE 165", Some("e/4")))),
      ListingRow(Some(Link("Bellator 301", Some("e/5"))))];
    var p1 := ("UFC 300", join(Base, "e/1"));
    var p3 := ("UFC 301", join(Base, "e/3"));
    assert UfcPairs(rows, join, 3) == Success([]) by {
      assert !IsUfc(rows[3]) by { assert "ONE 165"[..3][0] == 'O'; }
      assert !IsUfc(rows[4]) by { assert "Bellator 301"[..3][0] == 'B'; }
    }
    assert UfcPairs(rows, join, 2) == Success([p3]) by {
      assert IsUfc(rows[2]) by { assert "UFC 301"[..3] == UfcPrefix; }
      assert [p3] + [] == [p3];
    }
    assert UfcPairs(rows, join, 1) == Success([p3]) by {
      assert !IsUfc(rows[1]) by { assert "PFL 1"[..3][0] == 'P'; }
    }
    assert UfcPairs(rows, join, 0) == Success([p1, p3]) by {
      assert IsUfc(rows[0]) by { assert "UFC 300"[..3] == UfcPrefix; }
      assert [p1] + [p3] == [p1, p3];
    }
    assert p1 != p3 by {
      assert p1.0[6] != p3.0[6];
    }
    KeepFirstOfUnique([p1, p3], PairKey);
  }
}
