/**
 * Shared vocabulary of the backend model: identifiers, HTTP-style replies,
 * string helpers (JavaScript's default string ordering, `split`, `trim`,
 * case-insensitive search) and the paging arithmetic every list endpoint uses.
 */
module Common {

  /** Every document id (user, post, comment, message) in its string form. */
  type Id = string

  /** Socket.IO connection handle. */
  type SocketId = string

  datatype Option<+T> = None | Some(value: T)

  /** An HTTP reply: a success status with a body, or an error status. */
  datatype Reply<+T> = Ok(status: nat, body: T) | Error(status: nat)

  const StatusOk: nat := 200
  const StatusCreated: nat := 201
  const StatusBadRequest: nat := 400
  const StatusUnauthorized: nat := 401
  const StatusForbidden: nat := 403
  const StatusNotFound: nat := 404
  const StatusServerError: nat := 500

  /** One page of a list endpoint: `{ items, currentPage, totalPages, total }`. */
  datatype Page<+T> = Page(items: seq<T>, currentPage: nat, totalPages: nat, total: nat)

  // ---------------------------------------------------------------------------
  // Query-string numbers

  /**
   * `parseInt(x) || d`: an absent value and 0 (falsy) both give the default.
   * Non-numeric and negative input is not modelled (the argument is a nat).
   */
  function OrDefault(x: Option<nat>, d: nat): (r: nat)
    requires d >= 1
    ensures r >= 1
    ensures x.Some? && x.value != 0 ==> r == x.value
    ensures x.None? || x.value == 0 ==> r == d
  {
    if x.None? || x.value == 0 then d else x.value
  }

  /** `Math.ceil(total / limit)` for a positive limit. */
  function CeilDiv(total: nat, limit: nat): (r: nat)
    requires limit >= 1
    ensures (r - 1) * limit < total <= r * limit || (total == 0 && r == 0)
  {
    (total + limit - 1) / limit
  }

  /**
   * How many items MongoDB's `.limit(limit)` lets through out of `n`: a
   * zero limit is no limit at all.
   */
  function MongoLimit(limit: nat, n: nat): nat
  {
    if limit == 0 then n else limit
  }

  /**
   * `.skip(skip).limit(limit)` applied to an already ordered result, for a
   * positive `limit`; a zero one goes through `MongoLimit` first.
   */
  function Window<T>(s: seq<T>, skip: nat, limit: nat): (r: seq<T>)
    ensures |r| <= limit
    ensures |r| == if skip >= |s| then 0 else if |s| - skip < limit then |s| - skip else limit
    ensures forall k :: 0 <= k < |r| ==> r[k] == s[skip + k]
    ensures multiset(r) <= multiset(s)
  {
    var lo := if skip < |s| then skip else |s|;
    var hi := if lo + limit < |s| then lo + limit else |s|;
    assert s == s[..lo] + s[lo..hi] + s[hi..];
    s[lo..hi]
  }

  /**
   * `w` is what is left of `s`, taken newest first, after skipping its
   * `skip` newest elements and keeping at most `limit`: entry `k` is the
   * `(skip + k)`-th newest element of `s`.
   */
  ghost predicate IsNewestWindow<T>(w: seq<T>, s: seq<T>, skip: nat, limit: nat) {
    && |w| == (if skip >= |s| then 0 else if |s| - skip < limit then |s| - skip else limit)
    && forall k :: 0 <= k < |w| ==> w[k] == s[|s| - 1 - (skip + k)]
  }

  /** `.sort({ createdAt: -1 }).skip(skip).limit(limit)` over `s` stored oldest first. */
  lemma NewestWindow<T>(s: seq<T>, skip: nat, limit: nat)
    ensures IsNewestWindow(Window(Reverse(s), skip, limit), s, skip, limit)
  {
    var w := Window(Reverse(s), skip, limit);
    forall k | 0 <= k < |w| ensures w[k] == s[|s| - 1 - (skip + k)] {
      assert w[k] == Reverse(s)[skip + k];
    }
  }

  /** `items` is page `page` of `limit` taken from `s` newest first. */
  ghost predicate IsNewestPage<T>(items: seq<T>, s: seq<T>, page: nat, limit: nat)
    requires page >= 1
  {
    IsNewestWindow(items, s, (page - 1) * limit, limit)
  }

  /**
   * A paged list endpoint over `s` (stored oldest first) sorted newest
   * first: `.sort({ createdAt: -1 }).skip((page - 1) * limit).limit(limit)`
   * with the total count and the page count. Entry `k` of the page is the
   * `(page - 1) * limit + k`-th newest element of `s`.
   */
  function NewestPage<T>(s: seq<T>, page: nat, limit: nat): (r: Page<T>)
    requires page >= 1 && limit >= 1
    ensures r.currentPage == page && r.total == |s| && r.totalPages == CeilDiv(|s|, limit)
    ensures |r.items| <= limit
    ensures forall k :: 0 <= k < |r.items| ==>
      (page - 1) * limit + k < |s| && r.items[k] == s[|s| - 1 - ((page - 1) * limit + k)]
    ensures forall x :: x in r.items ==> x in s
    ensures IsNewestPage(r.items, s, page, limit)
    ensures r.items == Window(Reverse(s), (page - 1) * limit, limit)
  {
    var items := Window(Reverse(s), (page - 1) * limit, limit);
    NewestWindow(s, (page - 1) * limit, limit);
    Page(items, page, CeilDiv(|s|, limit), |s|)
  }

  /** `countDocuments(filter)`: the number of positions of `s` whose element satisfies `p`. */
  function Count<T>(s: seq<T>, p: T -> bool): (n: nat)
    ensures n == 0 <==> forall k :: 0 <= k < |s| ==> !p(s[k])
    ensures n <= |s|
  {
    if s == [] then 0 else Count(s[..|s| - 1], p) + (if p(s[|s| - 1]) then 1 else 0)
  }

  /** The count is the number of positions of `s` whose element the filter admits. */
  lemma {:induction false} CountIsSize<T>(s: seq<T>, p: T -> bool)
    ensures Count(s, p) == |set k | 0 <= k < |s| && p(s[k])|
  {
    if s != [] {
      var init, last := s[..|s| - 1], |s| - 1;
      CountIsSize(init, p);
      var all, before := set k | 0 <= k < |s| && p(s[k]), set k | 0 <= k < |init| && p(init[k]);
      assert before == set k | 0 <= k < last && p(s[k]);
      if p(s[last]) {
        assert all == before + {last} && last !in before;
      } else {
        assert all == before;
      }
    }
  }

  /** The count is the size of any set holding exactly the positions the filter admits. */
  lemma CountPositions<T>(s: seq<T>, p: T -> bool, positions: set<int>)
    requires forall k :: k in positions <==> 0 <= k < |s| && p(s[k])
    ensures Count(s, p) == |positions|
  {
    CountIsSize(s, p);
    assert positions == set k | 0 <= k < |s| && p(s[k]);
  }

  /** Replacing one element moves the count by what the old and the new element contribute. */
  lemma {:induction false} CountReplace<T>(s: seq<T>, i: nat, v: T, p: T -> bool)
    requires i < |s|
    ensures Count(s[i := v], p) + (if p(s[i]) then 1 else 0) == Count(s, p) + (if p(v) then 1 else 0)
  {
    var n, t := |s| - 1, s[i := v];
    if i == n {
      assert t[..n] == s[..n];
    } else {
      assert t[..n] == s[..n][i := v];
      CountReplace(s[..n], i, v, p);
    }
  }

  /**
   * `run` is what a newest-first window of `s` becomes once reversed back:
   * the run of consecutive elements of `s` that ends `skip` elements before
   * its end, with as many elements as there are up to `limit`.
   */
  ghost predicate IsOldestFirstRun<T>(run: seq<T>, s: seq<T>, skip: nat, limit: nat) {
    && |run| == (if skip >= |s| then 0 else if |s| - skip < limit then |s| - skip else limit)
    && (skip < |s| ==> run == s[|s| - skip - |run|..|s| - skip])
  }

  /** With nothing skipped and no limit, the run is all of `s`. */
  lemma WholeRun<T>(run: seq<T>, s: seq<T>)
    requires IsOldestFirstRun(run, s, 0, |s|)
    ensures run == s
  {
    if s != [] {
      assert run == s[0..|s|];
    }
  }

  /** A newest-first window, reversed back, is a run of consecutive elements of `s`. */
  lemma NewestWindowIsRun<T>(w: seq<T>, s: seq<T>, skip: nat, limit: nat)
    requires IsNewestWindow(w, s, skip, limit)
    ensures IsOldestFirstRun(Reverse(w), s, skip, limit)
  {
    if skip < |s| {
      var n, lo := |w|, |s| - skip - |w|;
      var run := s[lo..|s| - skip];
      forall k | 0 <= k < n ensures Reverse(w)[k] == run[k] {
        NewestWindowAt(w, s, skip, limit, k);
      }
    }
  }

  /** One entry of a newest-first window, reversed back, as an entry of `s`. */
  lemma NewestWindowAt<T>(w: seq<T>, s: seq<T>, skip: nat, limit: nat, k: nat)
    requires IsNewestWindow(w, s, skip, limit) && skip < |s| && k < |w|
    ensures Reverse(w)[k] == s[|s| - skip - |w|..|s| - skip][k]
  {
    assert Reverse(w)[k] == w[|w| - 1 - k];
  }

  /** The elements of `s` in the opposite order. */
  function Reverse<T>(s: seq<T>): (r: seq<T>)
    ensures |r| == |s|
    ensures forall k :: 0 <= k < |s| ==> r[k] == s[|s| - 1 - k]
  {
    if s == [] then [] else Reverse(s[1..]) + [s[0]]
  }

  /** Reversal keeps exactly the same elements. */
  lemma ReverseMembers<T>(s: seq<T>)
    ensures forall x :: x in Reverse(s) <==> x in s
  {
    ReverseMultiset(s);
    assert forall x :: x in Reverse(s) <==> x in multiset(Reverse(s));
  }

  lemma ReverseInvolution<T>(s: seq<T>)
    ensures Reverse(Reverse(s)) == s
  {
    assert |Reverse(Reverse(s))| == |s|;
    assert forall k :: 0 <= k < |s| ==> Reverse(Reverse(s))[k] == s[k];
  }

  lemma ReverseMultiset<T>(s: seq<T>)
    ensures multiset(Reverse(s)) == multiset(s)
  {
    if s != [] {
      ReverseMultiset(s[1..]);
      assert s == [s[0]] + s[1..];
    }
  }

  // ---------------------------------------------------------------------------
  // Sequences of ids

  /** Array.prototype.indexOf: the first index of `x`, or -1. */
  function IndexOf<T(==)>(s: seq<T>, x: T): (r: int)
    ensures -1 <= r < |s|
    ensures r == -1 <==> x !in s
    ensures r >= 0 ==> s[r] == x && x !in s[..r]
  {
    if s == [] then -1
    else if s[0] == x then 0
    else
      var k := IndexOf(s[1..], x);
      assert s[1..][..(if k < 0 then 0 else k)] == s[1..(if k < 0 then 1 else k + 1)];
      if k < 0 then -1 else k + 1
  }

  /** `splice(i, 1)`: the sequence without its element at index `i`. */
  function RemoveAt<T>(s: seq<T>, i: nat): (r: seq<T>)
    requires i < |s|
    ensures |r| == |s| - 1
    ensures forall k :: 0 <= k < i ==> r[k] == s[k]
    ensures forall k :: i <= k < |r| ==> r[k] == s[k + 1]
  {
    s[..i] + s[i + 1..]
  }

  /** `filter(id => id !== x)`: every occurrence of `x` removed, the rest in order. */
  function RemoveAll<T(==,!new)>(s: seq<T>, x: T): (r: seq<T>)
    ensures x !in r
    ensures forall y :: y != x ==> (y in r <==> y in s)
    ensures multiset(r)[x] == 0
    ensures forall y :: y != x ==> multiset(r)[y] == multiset(s)[y]
    ensures |r| <= |s|
  {
    if s == [] then []
    else
      var rest := RemoveAll(s[..|s| - 1], x);
      assert s == s[..|s| - 1] + [s[|s| - 1]];
      if s[|s| - 1] == x then rest else rest + [s[|s| - 1]]
  }

  /**
   * The filter keeps the order: filtering a sequence with one more element
   * at the end gives the filtered prefix followed by that element, unless it is `x`.
   */
  lemma RemoveAllSnoc<T(!new)>(s: seq<T>, y: T, x: T)
    ensures RemoveAll(s + [y], x) == RemoveAll(s, x) + (if y == x then [] else [y])
  {
    assert (s + [y])[..|s|] == s;
  }

  /** Filtering out an element that is not there changes nothing. */
  lemma {:induction false} RemoveAllAbsent<T(!new)>(s: seq<T>, x: T)
    requires x !in s
    ensures RemoveAll(s, x) == s
  {
    if s != [] {
      RemoveAllAbsent(s[..|s| - 1], x);
      assert s == s[..|s| - 1] + [s[|s| - 1]];
    }
  }

  /** Filtering out an element just pushed onto a sequence without it gives the sequence back. */
  lemma RemoveAllAppendAbsent<T(!new)>(s: seq<T>, x: T)
    requires x !in s
    ensures RemoveAll(s + [x], x) == s
  {
    assert (s + [x])[..|s|] == s;
    RemoveAllAbsent(s, x);
  }

  /** No element occurs twice. */
  predicate NoDup<T(==)>(s: seq<T>) {
    forall i, j :: 0 <= i < j < |s| ==> s[i] != s[j]
  }

  /** The distinct elements of `s` in the order of their first occurrence. */
  function Distinct<T(==,!new)>(s: seq<T>): (r: seq<T>)
    ensures NoDup(r)
    ensures forall x :: x in r <==> x in s
  {
    if s == [] then []
    else
      var rest := Distinct(s[..|s| - 1]);
      assert s == s[..|s| - 1] + [s[|s| - 1]];
      if s[|s| - 1] in rest then rest else rest + [s[|s| - 1]]
  }

  /** Appending an element extends the distinct elements only when it is new. */
  lemma DistinctAppend<T(!new)>(s: seq<T>, x: T)
    ensures Distinct(s + [x]) == if x in s then Distinct(s) else Distinct(s) + [x]
  {
    assert (s + [x])[..|s|] == s;
  }

  // ---------------------------------------------------------------------------
  // Strings

  /**
   * JavaScript's default string order (`Array.prototype.sort` without a
   * comparator): lexicographic by character code, a proper prefix first.
   * Dafny compares characters by code point; for ids (ASCII) that is the
   * same as JavaScript's UTF-16 code units.
   */
  predicate LexLe(a: string, b: string)
  {
    if |a| == 0 then true
    else if |b| == 0 then false
    else if a[0] != b[0] then a[0] < b[0]
    else LexLe(a[1..], b[1..])
  }

  /** Every string sorts no later than itself. */
  lemma {:induction false} LexLeReflexive(a: string)
    ensures LexLe(a, a)
  {
    if |a| > 0 {
      LexLeReflexive(a[1..]);
    }
  }

  lemma {:induction false} LexLeTotal(a: string, b: string)
    ensures LexLe(a, b) || LexLe(b, a)
  {
    if |a| > 0 && |b| > 0 && a[0] == b[0] {
      LexLeTotal(a[1..], b[1..]);
    }
  }

  lemma {:induction false} LexLeAntisymmetric(a: string, b: string)
    requires LexLe(a, b) && LexLe(b, a)
    ensures a == b
  {
    if |a| > 0 && |b| > 0 {
      LexLeAntisymmetric(a[1..], b[1..]);
      assert a == [a[0]] + a[1..] && b == [b[0]] + b[1..];
    }
  }

  lemma {:induction false} LexLeTransitive(a: string, b: string, c: string)
    requires LexLe(a, b) && LexLe(b, c)
    ensures LexLe(a, c)
  {
    if |a| > 0 && |b| > 0 && |c| > 0 && a[0] == b[0] && b[0] == c[0] {
      LexLeTransitive(a[1..], b[1..], c[1..]);
    }
  }

  /**
   * `s.split(sep)` with a one-character separator: the pieces between
   * separators, an empty piece at either end when `s` starts or ends with
   * `sep`, and `[""]` for the empty string.
   */
  function Split(s: string, sep: char): (parts: seq<string>)
    ensures |parts| >= 1
  {
    if |s| == 0 then [""]
    else if s[0] == sep then [""] + Split(s[1..], sep)
    else
      var rest := Split(s[1..], sep);
      [[s[0]] + rest[0]] + rest[1..]
  }

  /** A string without the separator splits into itself alone. */
  lemma {:induction false} SplitNoSep(s: string, sep: char)
    requires sep !in s
    ensures Split(s, sep) == [s]
  {
    if |s| > 0 {
      SplitNoSep(s[1..], sep);
      assert [s[0]] + s[1..] == s;
    }
  }

  /** Splitting `a + sep + b` with no separator in `a` peels `a` off the front. */
  lemma {:induction false} SplitAtFirstSep(a: string, sep: char, b: string)
    requires sep !in a
    ensures Split(a + [sep] + b, sep) == [a] + Split(b, sep)
  {
    if |a| == 0 {
      assert a + [sep] + b == [sep] + b;
      assert ([sep] + b)[1..] == b;
    } else {
      SplitAtFirstSep(a[1..], sep, b);
      assert (a + [sep] + b)[1..] == a[1..] + [sep] + b;
      assert [a[0]] + a[1..] == a;
    }
  }

  /** Splitting `a + sep + b` where neither side holds the separator gives exactly `[a, b]`. */
  lemma SplitPair(a: string, sep: char, b: string)
    requires sep !in a && sep !in b
    ensures Split(a + [sep] + b, sep) == [a, b]
  {
    SplitAtFirstSep(a, sep, b);
    SplitNoSep(b, sep);
  }

  /** ASCII lower-casing of one character (the `i` option of the search regexes). */
  function ToLower(c: char): (r: char)
    ensures 'A' <= c <= 'Z' ==> r != c && 'a' <= r <= 'z'
    ensures !('A' <= c <= 'Z') ==> r == c
  {
    if 'A' <= c <= 'Z' then (c as int + 32) as char else c
  }

  function LowerStr(s: string): (r: string)
    ensures |r| == |s|
    ensures forall k :: 0 <= k < |s| ==> r[k] == ToLower(s[k])
  {
    if s == [] then [] else [ToLower(s[0])] + LowerStr(s[1..])
  }

  /** `p` occurs in `t` as a contiguous piece. */
  predicate IsSubstring(p: string, t: string)
  {
    p <= t || (t != [] && IsSubstring(p, t[1..]))
  }

  /** Case-insensitive substring match: `{ $regex: pattern, $options: 'i' }` on a literal pattern. */
  predicate MatchesCI(text: string, pattern: string)
  {
    IsSubstring(LowerStr(pattern), LowerStr(text))
  }

  lemma {:induction false} EmptyIsSubstring(t: string)
    ensures IsSubstring("", t)
  {
  }

  /** White space removed by `String.prototype.trim` (the ASCII ones, NBSP and BOM). */
  predicate IsSpace(c: char)
  {
    c == ' ' || c == '\t' || c == '\n' || c == '\r' || c == '\U{000B}' || c == '\U{000C}'
    || c == '\U{00A0}' || c == '\U{FEFF}'
  }

  /** `s` without its leading white space. */
  function TrimStart(s: string): (r: string)
    ensures r == [] || !IsSpace(r[0])
    ensures |r| <= |s| && r == s[|s| - |r|..]
    ensures forall k :: 0 <= k < |s| - |r| ==> IsSpace(s[k])
  {
    if s != [] && IsSpace(s[0]) then TrimStart(s[1..]) else s
  }

  /** `s` without its trailing white space. */
  function TrimEnd(s: string): (r: string)
    ensures r == [] || !IsSpace(r[|r| - 1])
    ensures |r| <= |s| && r == s[..|r|]
    ensures forall k :: |r| <= k < |s| ==> IsSpace(s[k])
  {
    if s != [] && IsSpace(s[|s| - 1]) then TrimEnd(s[..|s| - 1]) else s
  }

  /** `s.trim()`: what is left starts and ends with a character that is not white space. */
  function Trim(s: string): (r: string)
    ensures r == [] || (!IsSpace(r[0]) && !IsSpace(r[|r| - 1]))
  {
    var t := TrimStart(s);
    var r := TrimEnd(t);
    assert r != [] ==> r[0] == t[0];
    r
  }

  /**
   * `r` is the block of `s` starting at `i`, and everything before and
   * after the block is white space.
   */
  ghost predicate SpaceAround(s: string, r: string, i: nat)
  {
    && i + |r| <= |s| && r == s[i..i + |r|]
    && (forall k :: 0 <= k < i ==> IsSpace(s[k]))
    && (forall k :: i + |r| <= k < |s| ==> IsSpace(s[k]))
  }

  /**
   * `trim()` cuts white space only: the result is the block of `s` that
   * starts after the leading white space, and everything after the block
   * is white space too.
   */
  lemma TrimCutsSpace(s: string)
    ensures SpaceAround(s, Trim(s), |s| - |TrimStart(s)|)
  {
    var t := TrimStart(s);
    assert Trim(s) == TrimEnd(t);
    TrimBlock(s, t, TrimEnd(t));
  }

  /**
   * A block cut from the back of a suffix `t` of `s`, both cuts white
   * space, is a slice of `s` with only white space around it.
   */
  lemma TrimBlock(s: string, t: string, r: string)
    requires |t| <= |s| && t == s[|s| - |t|..]
    requires forall k :: 0 <= k < |s| - |t| ==> IsSpace(s[k])
    requires |r| <= |t| && r == t[..|r|]
    requires forall k :: |r| <= k < |t| ==> IsSpace(t[k])
    ensures SpaceAround(s, r, |s| - |t|)
  {
    var i := |s| - |t|;
    forall k | i + |r| <= k < |s| ensures IsSpace(s[k]) {
      assert s[k] == t[k - i];
    }
  }

  /** `trim()` leaves nothing exactly when every character is white space. */
  lemma {:induction false} TrimEmptyIffBlank(s: string)
    ensures Trim(s) == [] <==> forall k :: 0 <= k < |s| ==> IsSpace(s[k])
  {
    TrimStartBlank(s);
    var t := TrimStart(s);
    if t != [] {
      assert !IsSpace(t[0]);
      TrimEndKeepsNonBlank(t);
    }
  }

  lemma {:induction false} TrimStartBlank(s: string)
    ensures TrimStart(s) == [] <==> forall k :: 0 <= k < |s| ==> IsSpace(s[k])
  {
    if s != [] && IsSpace(s[0]) {
      TrimStartBlank(s[1..]);
      assert forall k :: 1 <= k < |s| ==> s[k] == s[1..][k - 1];
    }
  }

  lemma {:induction false} TrimEndKeepsNonBlank(t: string)
    requires t != [] && !IsSpace(t[0])
    ensures TrimEnd(t) != []
  {
    if IsSpace(t[|t| - 1]) {
      TrimEndKeepsNonBlank(t[..|t| - 1]);
    }
  }
}
