/** The parts of src/rest.c that do not talk to the network: the schema-registry URL
    list with its round-robin cursor, and the growable buffer a REST response is
    written into. */
module Rest {
  import opened Common

  // ---------------------------------------------------------------------------
  // The URL list, as a value (src/rest.c:44-80)
  // ---------------------------------------------------------------------------

  /** `strchr(s + p, ',')`: the index of the first comma at or after `p`, or |s| when
      there is none. */
  function CommaFrom(s: string, p: nat): (c: nat)
    requires p <= |s|
    ensures p <= c <= |s|
    decreases |s| - p
  {
    if p == |s| || s[p] == ',' then p else CommaFrom(s, p + 1)
  }

  /** CommaFrom stops at the first comma after `p` and at no other character. */
  lemma {:induction false} CommaFromSpec(s: string, p: nat)
    requires p <= |s|
    ensures forall k | p <= k < CommaFrom(s, p) :: s[k] != ','
    ensures CommaFrom(s, p) < |s| ==> s[CommaFrom(s, p)] == ','
    decreases |s| - p
  {
    if p < |s| && s[p] != ',' {
      CommaFromSpec(s, p + 1);
    }
  }

  /** A position with no comma between `p` and it, and a comma or the end at it, is
      what CommaFrom finds. */
  lemma {:induction false} CommaFromIs(s: string, p: nat, c: nat)
    requires p <= c <= |s| && (forall k | p <= k < c :: s[k] != ',') && (c < |s| ==> s[c] == ',')
    ensures CommaFrom(s, p) == c
    decreases c - p
  {
    if p < c {
      CommaFromIs(s, p + 1, c);
    }
  }

  /** `while (*s == ' ') s++;` from `p`: the first position at or after `p` that does not
      hold a space (only ' ', not other blanks), or |s|. */
  function SpaceFrom(s: string, p: nat): (q: nat)
    requires p <= |s|
    ensures p <= q <= |s|
    decreases |s| - p
  {
    if p == |s| || s[p] != ' ' then p else SpaceFrom(s, p + 1)
  }

  /** SpaceFrom skips spaces only, and stops at the first other character. */
  lemma {:induction false} SpaceFromSpec(s: string, p: nat)
    requires p <= |s|
    ensures forall k | p <= k < SpaceFrom(s, p) :: s[k] == ' '
    ensures SpaceFrom(s, p) < |s| ==> s[SpaceFrom(s, p)] != ' '
    decreases |s| - p
  {
    if p < |s| && s[p] == ' ' {
      SpaceFromSpec(s, p + 1);
    }
  }

  /** A run of spaces from `p` that stops at `q` is what SpaceFrom skips. */
  lemma {:induction false} SpaceFromIs(s: string, p: nat, q: nat)
    requires p <= q <= |s| && (forall k | p <= k < q :: s[k] == ' ') && (q < |s| ==> s[q] != ' ')
    ensures SpaceFrom(s, p) == q
    decreases q - p
  {
    if p < q {
      SpaceFromIs(s, p + 1, q);
    }
  }

  /** The entries the list denotes from position `p` on: a non-empty rest contributes the
      field after its leading spaces up to the next comma, then the entries after that
      comma. So an empty field in the middle is an (empty) entry, and a final comma adds
      none. */
  function ParsedFrom(s: string, p: nat): (us: seq<string>)
    requires p <= |s|
    ensures |us| == 0 <==> p == |s|
    decreases |s| - p
  {
    if p == |s| then []
    else
      var q := SpaceFrom(s, p);
      var c := CommaFrom(s, q);
      [s[q..c]] + (if c == |s| then [] else ParsedFrom(s, c + 1))
  }

  /** ParsedFrom at a position before the end, unfolded once. */
  lemma ParsedFromUnfold(s: string, p: nat, q: nat, c: nat)
    requires p < |s| && q == SpaceFrom(s, p) && c == CommaFrom(s, q)
    ensures ParsedFrom(s, p) == [s[q..c]] + (if c == |s| then [] else ParsedFrom(s, c + 1))
  {
    if c == |s| {
      ParsedFromLast(s, p, q);
    } else {
      ParsedFromNext(s, p, q, c);
    }
  }

  /** The last field is the only entry. */
  lemma ParsedFromLast(s: string, p: nat, q: nat)
    requires p < |s| && q == SpaceFrom(s, p) && CommaFrom(s, q) == |s|
    ensures ParsedFrom(s, p) == [s[q..|s|]]
  {
    assert [s[q..|s|]] + [] == [s[q..|s|]];
  }

  /** A field ended by a comma comes before the entries after the comma. */
  lemma ParsedFromNext(s: string, p: nat, q: nat, c: nat)
    requires p < |s| && q == SpaceFrom(s, p) && c == CommaFrom(s, q) && c < |s|
    ensures ParsedFrom(s, p) == [s[q..c]] + ParsedFrom(s, c + 1)
  {
  }

  /** The entries of a comma-separated list. */
  function ParsedUrls(s: string): (us: seq<string>)
    ensures |us| == 0 <==> s == []
  {
    ParsedFrom(s, 0)
  }

  /** The length of the longest entry, 0 for none. */
  function MaxLen(us: seq<string>): (m: nat)
    ensures forall k | 0 <= k < |us| :: |us[k]| <= m
    ensures us == [] ==> m == 0
    ensures us != [] ==> exists k | 0 <= k < |us| :: |us[k]| == m
  {
    if us == [] then 0 else Max(MaxLen(us[..|us| - 1]), |us[|us| - 1]|)
  }

  /** Number of commas in `s` from position `p` on. */
  function CommasFrom(s: string, p: nat): nat
    requires p <= |s|
    decreases |s| - p
  {
    if p == |s| then 0 else (if s[p] == ',' then 1 else 0) + CommasFrom(s, p + 1)
  }

  /** Number of commas in `s`. */
  function Commas(s: string): nat {
    CommasFrom(s, 0)
  }

  /** A stretch without commas adds none to the count. */
  lemma {:induction false} CommasFromSkip(s: string, p: nat, c: nat)
    requires p <= c <= |s| && forall k | p <= k < c :: s[k] != ','
    ensures CommasFrom(s, p) == CommasFrom(s, c)
    decreases c - p
  {
    if p < c {
      CommasFromSkip(s, p + 1, c);
    }
  }

  /** One iteration of the parse loop: from position `p`, skipping spaces to `q` and
      cutting at the comma `c` yields the entry `s[q..c]`, then the entries after `c`. */
  lemma ParseStep(s: string, p: nat, q: nat, c: nat)
    requires p < |s| && p <= q <= c <= |s|
    requires forall k | p <= k < q :: s[k] == ' '
    requires q == |s| || s[q] != ' '
    requires forall k | q <= k < c :: s[k] != ','
    requires c < |s| ==> s[c] == ','
    ensures ParsedFrom(s, p) == [s[q..c]] + (if c == |s| then [] else ParsedFrom(s, c + 1))
  {
    SpaceFromIs(s, p, q);
    CommaFromIs(s, q, c);
    ParsedFromUnfold(s, p, q, c);
  }

  /** The parse loop's invariant survives one iteration. */
  lemma ParseAdvance(s: string, done: seq<string>, p: nat, q: nat, c: nat) returns (next: nat)
    requires p < |s| && p <= q <= c <= |s|
    requires forall k | p <= k < q :: s[k] == ' '
    requires q == |s| || s[q] != ' '
    requires forall k | q <= k < c :: s[k] != ','
    requires c < |s| ==> s[c] == ','
    requires done + ParsedFrom(s, p) == ParsedUrls(s)
    ensures next == (if c < |s| then c + 1 else c) && next <= |s|
    ensures (done + [s[q..c]]) + ParsedFrom(s, next) == ParsedUrls(s)
  {
    ParseStep(s, p, q, c);
    next := if c < |s| then c + 1 else c;
  }

  /** No entry contains a comma, and none starts with a space. */
  lemma ParsedUrlsShape(s: string)
    ensures forall k | 0 <= k < |ParsedUrls(s)| ::
      ',' !in ParsedUrls(s)[k] && (ParsedUrls(s)[k] == [] || ParsedUrls(s)[k][0] != ' ')
  {
    ParsedFromShape(s, 0);
  }

  /** An entry the parser can produce: no comma, and no leading space. */
  predicate WellShaped(u: string) {
    ',' !in u && (u == [] || u[0] != ' ')
  }

  predicate AllWellShaped(us: seq<string>) {
    forall k | 0 <= k < |us| :: WellShaped(us[k])
  }

  lemma {:induction false} ParsedFromShape(s: string, p: nat)
    requires p <= |s|
    ensures AllWellShaped(ParsedFrom(s, p))
    decreases |s| - p
  {
    if p < |s| {
      var q := SpaceFrom(s, p);
      var c := CommaFrom(s, q);
      if c == |s| {
        ShapeLastField(s, p, q, c);
      } else {
        ParsedFromShape(s, c + 1);
        ShapeField(s, p, q, c);
      }
    }
  }

  /** A last field alone is well shaped. */
  lemma ShapeLastField(s: string, p: nat, q: nat, c: nat)
    requires p < |s| && q == SpaceFrom(s, p) && c == CommaFrom(s, q) == |s|
    ensures AllWellShaped(ParsedFrom(s, p))
  {
    FieldShape(s, p, q, c);
    ParsedFromUnfold(s, p, q, c);
    ShapeCons(s[q..c], [], ParsedFrom(s, p));
  }

  /** A well-shaped field in front of well-shaped entries. */
  lemma ShapeField(s: string, p: nat, q: nat, c: nat)
    requires p < |s| && q == SpaceFrom(s, p) && c == CommaFrom(s, q) && c < |s|
    requires AllWellShaped(ParsedFrom(s, c + 1))
    ensures AllWellShaped(ParsedFrom(s, p))
  {
    FieldShape(s, p, q, c);
    ParsedFromUnfold(s, p, q, c);
    ShapeCons(s[q..c], ParsedFrom(s, c + 1), ParsedFrom(s, p));
  }

  /** Prefixing a well-shaped entry keeps every entry well shaped. */
  lemma ShapeCons(h: string, rest: seq<string>, all: seq<string>)
    requires all == [h] + rest && WellShaped(h)
    requires AllWellShaped(rest)
    ensures AllWellShaped(all)
  {
    assert forall k | 0 < k < |all| :: all[k] == rest[k - 1];
  }

  /** The field the parser cuts from `p` holds no comma and does not start with a space. */
  lemma FieldShape(s: string, p: nat, q: nat, c: nat)
    requires p < |s| && q == SpaceFrom(s, p) && c == CommaFrom(s, q)
    ensures WellShaped(s[q..c])
  {
    SpaceFromSpec(s, p);
    CommaFromSpec(s, q);
    forall k | 0 <= k < c - q ensures s[q..c][k] != ',' {
      assert s[q..c][k] == s[q + k];
    }
  }

  /** The count url_list_parse returns: one more than the number of commas, unless the
      list is empty or ends with a comma. */
  lemma ParsedUrlsCount(s: string)
    ensures |ParsedUrls(s)| == Commas(s) + (if s == [] || s[|s| - 1] == ',' then 0 else 1)
  {
    ParsedFromCount(s, 0);
  }

  /** The count of url_list_parse, from position `p` on. */
  predicate CountFrom(s: string, p: nat)
    requires p <= |s|
  {
    |ParsedFrom(s, p)| == CommasFrom(s, p) + (if p == |s| || s[|s| - 1] == ',' then 0 else 1)
  }

  lemma {:induction false} ParsedFromCount(s: string, p: nat)
    requires p <= |s|
    ensures CountFrom(s, p)
    decreases |s| - p
  {
    if p < |s| {
      var q := SpaceFrom(s, p);
      var c := CommaFrom(s, q);
      if c == |s| {
        CountLastField(s, p, q);
      } else {
        ParsedFromCount(s, c + 1);
        CountField(s, p, q, c);
      }
    }
  }

  /** A field that runs to the end of the string is its one entry. */
  lemma CountLastField(s: string, p: nat, q: nat)
    requires p < |s| && q == SpaceFrom(s, p) && CommaFrom(s, q) == |s|
    ensures CountFrom(s, p)
  {
    EntriesAt(s, p, q, |s|);
    CommasAt(s, p, q, |s|);
    LastCharAt(s, p, q, |s|);
  }

  /** A field ended by a comma adds one entry and one comma to the rest's count. */
  lemma CountField(s: string, p: nat, q: nat, c: nat)
    requires p < |s| && q == SpaceFrom(s, p) && c == CommaFrom(s, q) && c < |s|
    requires CountFrom(s, c + 1)
    ensures CountFrom(s, p)
  {
    EntriesAt(s, p, q, c);
    CommasAt(s, p, q, c);
    LastCharAt(s, p, q, c);
  }

  /** The first field from `p` adds one entry. */
  lemma EntriesAt(s: string, p: nat, q: nat, c: nat)
    requires p < |s| && q == SpaceFrom(s, p) && c == CommaFrom(s, q)
    ensures |ParsedFrom(s, p)| == 1 + (if c == |s| then 0 else |ParsedFrom(s, c + 1)|)
  {
    ParsedFromUnfold(s, p, q, c);
  }

  /** The first field from `p` holds no comma; the comma that ends it (if any) is one. */
  lemma CommasAt(s: string, p: nat, q: nat, c: nat)
    requires p < |s| && q == SpaceFrom(s, p) && c == CommaFrom(s, q)
    ensures CommasFrom(s, p) == (if c == |s| then 0 else 1 + CommasFrom(s, c + 1))
  {
    SpaceFromSpec(s, p);
    CommaFromSpec(s, q);
    forall k | p <= k < c ensures s[k] != ',' {
      if k < q {
        assert s[k] == ' ';
      }
    }
    CommasFromSkip(s, p, c);
  }

  /** The list ends in a comma exactly when its last field is empty. */
  lemma LastCharAt(s: string, p: nat, q: nat, c: nat)
    requires p < |s| && q == SpaceFrom(s, p) && c == CommaFrom(s, q)
    ensures c == |s| ==> s[|s| - 1] != ','
    ensures c + 1 == |s| ==> s[|s| - 1] == ','
  {
    SpaceFromSpec(s, p);
    CommaFromSpec(s, q);
    if c == |s| && q == |s| {
      assert s[|s| - 1] == ' ';
    }
  }

  /** A single trailing comma adds no entry. */
  lemma TrailingCommaAddsNothing(s: string)
    requires s != [] && s[|s| - 1] != ','
    ensures ParsedUrls(s + ",") == ParsedUrls(s)
  {
    var t := s + ",";
    assert forall k | 0 <= k < |s| :: t[k] == s[k];
    TrailingCommaFrom(s, t, 0);
  }

  /** `t` is `s` with a comma appended. */
  predicate CommaAppended(s: string, t: string) {
    |t| == |s| + 1 && t[|s|] == ',' && forall k | 0 <= k < |s| :: t[k] == s[k]
  }

  lemma {:induction false} TrailingCommaFrom(s: string, t: string, p: nat)
    requires p < |s| && s[|s| - 1] != ',' && CommaAppended(s, t)
    ensures ParsedFrom(t, p) == ParsedFrom(s, p)
    decreases |s| - p
  {
    var q := SpaceFrom(s, p);
    var c := CommaFrom(s, q);
    TrailingSpaceFrom(s, t, p);
    TrailingCommaFromIs(s, t, q);
    if c == |s| {
      TrailingLastField(s, t, p, q);
    } else {
      CommaFromSpec(s, q);
      TrailingCommaFrom(s, t, c + 1);
      TrailingField(s, t, p, q, c);
    }
  }

  /** The last field (one without a comma after it) is cut the same with a comma appended. */
  lemma TrailingLastField(s: string, t: string, p: nat, q: nat)
    requires p < |s| && CommaAppended(s, t) && q == SpaceFrom(s, p) == SpaceFrom(t, p)
    requires CommaFrom(s, q) == |s| == CommaFrom(t, q)
    ensures ParsedFrom(t, p) == ParsedFrom(s, p)
  {
    ParsedFromUnfold(s, p, q, |s|);
    ParsedFromUnfold(t, p, q, |s|);
    SliceAgrees(s, t, q, |s|);
  }

  /** A field ended by a comma is cut the same with a comma appended. */
  lemma TrailingField(s: string, t: string, p: nat, q: nat, c: nat)
    requires p < |s| && CommaAppended(s, t) && q == SpaceFrom(s, p) == SpaceFrom(t, p)
    requires c == CommaFrom(s, q) == CommaFrom(t, q) && c < |s|
    requires ParsedFrom(t, c + 1) == ParsedFrom(s, c + 1)
    ensures ParsedFrom(t, p) == ParsedFrom(s, p)
  {
    ParsedFromUnfold(s, p, q, c);
    ParsedFromUnfold(t, p, q, c);
    SliceAgrees(s, t, q, c);
  }

  /** A string that agrees with `s` on all of `s` has the same slices inside `s`. */
  lemma SliceAgrees(s: string, t: string, i: nat, j: nat)
    requires i <= j <= |s| <= |t| && forall k | 0 <= k < |s| :: t[k] == s[k]
    ensures t[i..j] == s[i..j]
  {
    assert forall k | 0 <= k < j - i :: t[i..j][k] == t[i + k] && s[i..j][k] == s[i + k];
  }

  /** Appending a comma does not move the end of a run of spaces. */
  lemma TrailingSpaceFrom(s: string, t: string, p: nat)
    requires p <= |s| && CommaAppended(s, t)
    ensures SpaceFrom(t, p) == SpaceFrom(s, p)
  {
    SpaceFromSpec(s, p);
    SpaceFromIs(t, p, SpaceFrom(s, p));
  }

  /** Appending a comma lets the search for a comma stop at the end instead of past it. */
  lemma TrailingCommaFromIs(s: string, t: string, q: nat)
    requires q <= |s| && CommaAppended(s, t)
    ensures CommaFrom(t, q) == CommaFrom(s, q)
  {
    CommaFromSpec(s, q);
    CommaFromIs(t, q, CommaFrom(s, q));
  }

  /** The example list `" a ,,  b,"`: spaces after a URL are kept, an empty field between
      two commas is an (empty) URL, and the final comma adds nothing. */
  lemma ParseExample(s: string)
    requires s == " a ,,  b,"
    ensures ParsedUrls(s) == ["a ", "", "b"]
  {
    ExampleFrom4(s);
    assert s[0] == ' ' && s[1] == 'a' && s[2] == ' ' && s[3] == ',';
    ParseStep(s, 0, 1, 3);
    assert s[1..3] == "a ";
  }

  /** After the first comma of the example: an empty field, then `b`. */
  lemma ExampleFrom4(s: string)
    requires s == " a ,,  b,"
    ensures ParsedFrom(s, 4) == ["", "b"]
  {
    ExampleFrom5(s);
    assert s[4] == ',';
    ParseStep(s, 4, 4, 4);
    assert s[4..4] == "";
  }

  /** After the second comma of the example: `b`, and nothing for the final comma. */
  lemma ExampleFrom5(s: string)
    requires s == " a ,,  b,"
    ensures ParsedFrom(s, 5) == ["b"]
  {
    assert s[5] == ' ' && s[6] == ' ' && s[7] == 'b' && s[8] == ',';
    ParseStep(s, 5, 7, 8);
    assert s[7..8] == "b";
  }

  // ---------------------------------------------------------------------------
  // Round-robin over the list (src/rest.c:313-329)
  // ---------------------------------------------------------------------------

  /** What one turn of the loop at one URL gave: curl_easy_perform failing, a reply whose
      status code curl could read, or could not read, or setting the URL on the handle
      failing, after which rest_req returns at once with code -1 and the cursor left on
      that URL (src/rest.c:318, the macro at src/rest.c:272-284). */
  datatype Attempt = TransportFailed | Reply(status: int) | NoResponseCode | SetUrlFailed

  /** CURLE_HTTP_RETURNED_ERROR, the code recorded when curl has no status code. */
  const CurlHttpReturnedError := 22

  /** `rr->code` after rest_req_curl (src/rest.c:212-230). */
  function ResponseCode(a: Attempt): int {
    match a
    case TransportFailed => -1
    case Reply(status) => status
    case NoResponseCode => CurlHttpReturnedError
    case SetUrlFailed => -1
  }

  /** `rest_response_failed` (src/rest.h:76). */
  predicate ResponseFailed(code: int) {
    code < 100 || code > 299
  }

  /** The URL indices visited, in order, by `k` attempts from `start`. */
  function Visits(start: nat, n: nat, k: nat): (vs: seq<nat>)
    requires n > 0
    ensures |vs| == k
    ensures forall j | 0 <= j < k :: vs[j] == (start + j) % n
  {
    seq(k, j requires 0 <= j < k => (start + j) % n)
  }

  /** The `k`-th attempt from `start` does not get past the transport. */
  predicate FailsAt(outcome: seq<Attempt>, start: nat, k: nat)
    requires |outcome| > 0
  {
    outcome[(start + k) % |outcome|].TransportFailed?
  }

  /** The first attempt, counting from `start` and skipping `j` URLs, that ends the loop
      (it gets past the transport, or its URL cannot be set); None when every remaining
      URL fails at the transport. */
  function FirstAnswer(outcome: seq<Attempt>, start: nat, j: nat): (r: Option<nat>)
    requires |outcome| > 0 && j <= |outcome|
    ensures r.Some? ==>
      (j <= r.value < |outcome| && !FailsAt(outcome, start, r.value) &&
       forall k | j <= k < r.value :: FailsAt(outcome, start, k))
    ensures r.None? ==> forall k | j <= k < |outcome| :: FailsAt(outcome, start, k)
    decreases |outcome| - j
  {
    if j == |outcome| then None
    else if !FailsAt(outcome, start, j) then Some(j)
    else FirstAnswer(outcome, start, j + 1)
  }

  /** FirstAnswer is determined by the outcomes it has looked at. */
  lemma FirstAnswerIs(outcome: seq<Attempt>, start: nat, k: nat)
    requires |outcome| > 0 && k <= |outcome|
    requires forall j | 0 <= j < k :: FailsAt(outcome, start, j)
    ensures k < |outcome| && !FailsAt(outcome, start, k) ==> FirstAnswer(outcome, start, 0) == Some(k)
    ensures k == |outcome| ==> FirstAnswer(outcome, start, 0).None?
  {
  }

  /** The code of the response rest_req returns, given each URL's outcome. */
  function RequestCode(outcome: seq<Attempt>, start: nat): int
    requires |outcome| > 0
  {
    match FirstAnswer(outcome, start, 0)
    case Some(k) => ResponseCode(outcome[(start + k) % |outcome|])
    case None => -1
  }

  lemma ModBelowTwice(a: nat, n: nat)
    requires 0 < n && a < 2 * n
    ensures a % n == if a < n then a else a - n
  {
    if a >= n {
      assert a - n < n;
      assert a == n + (a - n);
    }
  }

  lemma ModStep(start: nat, n: nat, m: nat)
    requires start < n && 0 < m < n
    ensures (start + m) % n != start
  {
    ModBelowTwice(start + m, n);
  }

  /** Advancing the cursor `i`, `k` steps after `start`, wraps around to `start` only
      after a full round. */
  lemma CursorStep(start: nat, n: nat, k: nat, i: nat)
    requires start < n && k < n && i == (start + k) % n
    ensures (i + 1) % n == (start + k + 1) % n
    ensures (i + 1) % n == start <==> k + 1 == n
  {
    ModBelowTwice(start + k, n);
    ModBelowTwice(start + k + 1, n);
    ModBelowTwice(i + 1, n);
    if k + 1 < n {
      ModStep(start, n, k + 1);
    }
  }

  /** Within one round every URL is visited at most once, and a full round visits them all. */
  lemma VisitsAreDistinct(start: nat, n: nat, k: nat)
    requires start < n && k <= n
    ensures forall i, j | 0 <= i < j < k :: Visits(start, n, k)[i] != Visits(start, n, k)[j]
    ensures forall i | 0 <= i < k :: Visits(start, n, k)[i] < n
    ensures k == n ==> forall u | 0 <= u < n :: u in Visits(start, n, k)
  {
    var vs := Visits(start, n, k);
    forall i, j | 0 <= i < j < k ensures vs[i] != vs[j] {
      ModBelowTwice(start + i, n);
      ModBelowTwice(start + j, n);
    }
    if k == n {
      forall u | 0 <= u < n ensures u in vs {
        var j := if u >= start then u - start else u + n - start;
        ModBelowTwice(start + j, n);
        assert vs[j] == u;
      }
    }
  }

  /** A request where no URL gets past the transport fails, and so does one that stops
      at a URL that gives no status code or cannot be set. */
  lemma UnansweredRequestFails(outcome: seq<Attempt>, start: nat)
    requires |outcome| > 0
    requires FirstAnswer(outcome, start, 0).None? ||
      outcome[(start + FirstAnswer(outcome, start, 0).value) % |outcome|] in {NoResponseCode, SetUrlFailed}
    ensures ResponseFailed(RequestCode(outcome, start))
  {
  }

  /** Where the loop stops, having tried `count` URLs and left the cursor on `last`:
      at the first URL that answers or cannot be set, or back at `start` after trying
      every one. */
  predicate RoundRobinEnd(outcome: seq<Attempt>, start: nat, last: nat, count: nat)
    requires |outcome| > 0
  {
    match FirstAnswer(outcome, start, 0)
    case Some(k) => last == (start + k) % |outcome| && count == k + 1
    case None => last == start && count == |outcome|
  }

  /** The do-while loop of rest_req (src/rest.c:315-329) from cursor `start`. */
  method TryInTurn(outcome: seq<Attempt>, start: nat) returns (code: int, tried: seq<nat>, last: nat)
    requires start < |outcome|
    ensures code == RequestCode(outcome, start)
    ensures last < |outcome| && tried == Visits(start, |outcome|, |tried|)
    ensures RoundRobinEnd(outcome, start, last, |tried|)
  {
    var n := |outcome|;
    assert start % n == start;
    var i, k := start, 0;
    tried := [];
    code := -1;
    while true
      invariant 0 <= k < n && i == (start + k) % n
      invariant tried == Visits(start, n, k)
      invariant forall j | 0 <= j < k :: FailsAt(outcome, start, j)
      decreases n - k
    {
      tried := tried + [i];
      assert tried == Visits(start, n, k + 1);
      if outcome[i].SetUrlFailed? {
        code := -1;
        FirstAnswerIs(outcome, start, k);
        break;
      }
      code := ResponseCode(outcome[i]);
      if !outcome[i].TransportFailed? {
        FirstAnswerIs(outcome, start, k);
        break;
      }
      CursorStep(start, n, k, i);
      i := (i + 1) % n;
      k := k + 1;
      if i == start {
        FirstAnswerIs(outcome, start, k);
        break;
      }
    }
    last := i;
  }

  // ---------------------------------------------------------------------------
  // url_list_t
  // ---------------------------------------------------------------------------

  /** The loop of url_list_parse over the string `t`: the entries it appends, in order,
      and the running maximum of their lengths. */
  method ScanUrls(t: string) returns (us: seq<string>, longest: int)
    ensures us == ParsedUrls(t) && longest == MaxLen(us)
  {
    us, longest := [], 0;
    var p := 0;
    while p < |t|
      invariant p <= |t| && longest == MaxLen(us)
      invariant us + ParsedFrom(t, p) == ParsedUrls(t)
      decreases |t| - p
    {
      var q := SkipSpaces(t, p);
      var c := FindComma(t, q);
      ghost var next := ParseAdvance(t, us, p, q, c);
      var entry := t[q..c];
      assert MaxLen(us + [entry]) == Max(longest, |entry|) by {
        assert (us + [entry])[..|us|] == us;
      }
      us := us + [entry];
      if |entry| > longest {
        longest := |entry|;
      }
      if c < |t| {
        p := c + 1;
      } else {
        p := c;
      }
      assert p == next;
    }
  }

  /** `while (*s == ' ') s++;` from `p`. */
  method SkipSpaces(t: string, p: nat) returns (q: nat)
    requires p <= |t|
    ensures p <= q <= |t| && (q == |t| || t[q] != ' ')
    ensures forall k | p <= k < q :: t[k] == ' '
  {
    q := p;
    while q < |t| && t[q] == ' '
      invariant p <= q <= |t|
      invariant forall k | p <= k < q :: t[k] == ' '
    {
      q := q + 1;
    }
  }

  /** `strchr(s, ',')` from `q`, or the end of the string. */
  method FindComma(t: string, q: nat) returns (c: nat)
    requires q <= |t|
    ensures q <= c <= |t| && (c < |t| ==> t[c] == ',')
    ensures forall k | q <= k < c :: t[k] != ','
  {
    c := q;
    while c < |t| && t[c] != ','
      invariant q <= c <= |t|
      invariant forall k | q <= k < c :: t[k] != ','
    {
      c := c + 1;
    }
  }

  /** The observable state of a URL list: its entries, cursor and original string. */
  datatype UrlView = UrlView(urls: seq<string>, idx: int, str: Option<string>)

  /** A list that was never parsed, or has been cleared. */
  const EmptyUrls := UrlView([], 0, None)

  /** The list url_list_parse leaves for `s`. */
  function ParsedView(s: string): UrlView {
    UrlView(ParsedUrls(CStr(s)), 0, Some(CStr(s)))
  }

  /** `url_list_t`: the parsed entries, their count, the round-robin cursor, a copy of the
      original string and the longest entry's length. */
  class UrlList {
    var urls: seq<string>
    var cnt: int
    var idx: int
    var str: Option<string>
    var maxLen: int

    ghost predicate Valid()
      reads this
    {
      cnt == |urls| && 0 <= idx && (idx < cnt || idx == 0) && maxLen == MaxLen(urls)
      && (str.Some? ==> '\0' !in str.value && urls == ParsedUrls(str.value))
      && (str.None? ==> urls == [])
    }

    /** The list as a value. */
    function View(): UrlView
      reads this
    {
      UrlView(urls, idx, str)
    }

    /** A zeroed struct, as calloc or memset leave it. */
    constructor ()
      ensures Valid() && View() == EmptyUrls && cnt == 0 && maxLen == 0
    {
      urls, cnt, idx, str, maxLen := [], 0, 0, None, 0;
    }

    /** url_list_parse: replaces the list with the entries of `s`, returns their count. */
    method Parse(s: string) returns (n: int)
      modifies this
      ensures Valid() && View() == ParsedView(s)
      ensures n == cnt == |urls|
    {
      var t := CStr(s);
      str := Some(t);
      idx := 0;
      urls, maxLen := ScanUrls(t);
      cnt := |urls|;
      n := cnt;
    }

    /** url_list_clear. */
    method Clear()
      modifies this
      ensures Valid() && View() == EmptyUrls && cnt == 0 && maxLen == 0
    {
      urls, cnt, idx, str, maxLen := [], 0, 0, None, 0;
    }

    /** The URL loop of rest_req on this list: `outcome[i]` is what a request to
        `urls[i]` gives. Returns the final response code and the indices tried, in order,
        and leaves the cursor on the URL that answered. */
    method RoundRobin(outcome: seq<Attempt>) returns (code: int, tried: seq<nat>)
      requires Valid() && cnt > 0 && |outcome| == cnt
      modifies this`idx
      ensures Valid() && urls == old(urls) && str == old(str)
      ensures code == RequestCode(outcome, old(idx))
      ensures 0 <= idx < cnt && tried == Visits(old(idx), cnt, |tried|)
      ensures RoundRobinEnd(outcome, old(idx), idx, |tried|)
    {
      var last;
      code, tried, last := TryInTurn(outcome, idx);
      idx := last;
    }
  }

  // ---------------------------------------------------------------------------
  // rest_response_t (src/rest.c:141-202)
  // ---------------------------------------------------------------------------

  /** `rest_response_t`: a payload buffer of `size` bytes of which the first `len` are
      the response so far, the status code and a local error message. */
  class RestResponse {
    var size: int
    var len: int
    var payload: array<byte>
    var code: int
    var errstr: Option<string>

    ghost predicate Valid()
      reads this
    {
      payload.Length == size && 0 <= len <= size
    }

    /** The bytes received so far. */
    function Data(): seq<byte>
      reads this, payload
      requires Valid()
    {
      payload[..len]
    }

    /** rest_response_new: a zeroed response, grown to `initialSize` when that is not 0. */
    constructor (initialSize: int)
      ensures Valid() && len == 0 && code == 0 && errstr.None?
      ensures size == Max(initialSize, 0)
    {
      size, len, code, errstr := 0, 0, 0, None;
      payload := new byte[0];
      new;
      if initialSize != 0 {
        Grow(initialSize);
      }
    }

    /** rest_response_grow: the buffer grows by `addSize`, or by its own size when that is
        more, keeping every byte it held. */
    method Grow(addSize: int)
      requires Valid()
      modifies this
      ensures Valid() && fresh(payload)
      ensures size == old(size) + Max(addSize, old(size))
      ensures payload[..old(size)] == old(payload[..])
      ensures len == old(len) && code == old(code) && errstr == old(errstr)
    {
      var add := addSize;
      if add < size {
        add := size;
      }
      var grown := new byte[size + add];
      forall k | 0 <= k < size {
        grown[k] := payload[k];
      }
      size := size + add;
      payload := grown;
    }

    /** rest_response_reset: forgets the response but keeps the buffer. */
    method Reset()
      requires Valid()
      modifies this`code, this`errstr, this`len
      ensures Valid() && code == 0 && errstr.None? && len == 0
    {
      code := 0;
      errstr := None;
      len := 0;
    }

    /** rest_curl_write_cb: appends `itemSize * nmemb` bytes of `chunk` and returns that
        count, growing the buffer only when they do not fit. */
    method Write(chunk: seq<byte>, itemSize: nat, nmemb: nat) returns (n: nat)
      requires Valid() && itemSize * nmemb <= |chunk|
      modifies this, payload
      ensures Valid() && n == itemSize * nmemb
      ensures len == old(len) + n && Data() == old(Data()) + chunk[..n]
      ensures old(len) + n <= old(size) ==> payload == old(payload) && size == old(size)
      ensures size >= old(size) && code == old(code) && errstr == old(errstr)
    {
      n := itemSize * nmemb;
      Append(chunk[..n]);
    }

    /** The body of rest_curl_write_cb once the byte count is known. */
    method Append(bytes: seq<byte>)
      requires Valid()
      modifies this, payload
      ensures Valid() && len == old(len) + |bytes| && Data() == old(Data()) + bytes
      ensures old(len) + |bytes| <= old(size) ==> payload == old(payload) && size == old(size)
      ensures size >= old(size) && code == old(code) && errstr == old(errstr)
    {
      if len + |bytes| > size {
        ghost var before := Data();
        Grow(|bytes|);
        assert Data() == before by {
          assert payload[..len] == payload[..old(size)][..len];
        }
      }
      CopyIn(bytes);
    }

    /** Copies `bytes` behind the data, in a buffer that has room for them. */
    method CopyIn(bytes: seq<byte>)
      requires Valid() && len + |bytes| <= size
      modifies this`len, payload
      ensures Valid() && len == old(len) + |bytes| && Data() == old(Data()) + bytes
    {
      forall k | len <= k < len + |bytes| {
        payload[k] := bytes[k - len];
      }
      assert payload[..len] == old(payload[..len]);
      assert payload[len..len + |bytes|] == bytes;
      assert payload[..len + |bytes|] == payload[..len] + payload[len..len + |bytes|];
      len := len + |bytes|;
    }
  }
}
