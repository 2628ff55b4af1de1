/**
 * The JavaScript string built-ins that the prompt enhancer and the gallery
 * rely on, stated over `seq<char>`. A Dafny `char` is a Unicode scalar
 * value; for text whose characters all lie in the Basic Multilingual Plane it
 * is one UTF-16 code unit, so `|s|` is JavaScript's `s.length`.
 *
 *  - `Includes`, `IndexOf`       : `s.includes(sub)`, `s.indexOf(sub)`
 *  - `Split` / `Join`            : `s.split(c)` for a one-character separator
 *  - `Whitespace`                : the characters matched by the regex class `\s`
 *                                  and removed by `trim()`
 *  - `Trim`                      : `s.trim()`
 *  - `DashRuns`                  : `s.replace(/\s+/g, '-')`
 *  - `Prefix`                    : `s.substring(0, n)`
 *  - `DecimalString`             : the template-literal rendering of a non-negative integer
 */
module JsString {
  import opened Options

  // ---------------------------------------------------------------------------
  // Substring search
  // ---------------------------------------------------------------------------

  /** `sub` occurs in `s` starting at index `i`. */
  predicate OccursAt(s: string, sub: string, i: nat) {
    i + |sub| <= |s| && s[i..i + |sub|] == sub
  }

  /** First occurrence of `sub` in `s` at an index `>= from`. */
  function IndexOfFrom(s: string, sub: string, from: nat): (r: Option<nat>)
    ensures r.Some? ==> from <= r.value && OccursAt(s, sub, r.value)
    ensures r.Some? ==> forall j :: from <= j < r.value ==> !OccursAt(s, sub, j)
    ensures r.None? ==> forall j :: from <= j ==> !OccursAt(s, sub, j)
    decreases |s| - from
  {
    if from + |sub| > |s| then None
    else if s[from..from + |sub|] == sub then Some(from)
    else IndexOfFrom(s, sub, from + 1)
  }

  /** `s.indexOf(sub)`, with -1 rendered as `None`. */
  function IndexOf(s: string, sub: string): (r: Option<nat>)
    ensures r.Some? ==> OccursAt(s, sub, r.value)
    ensures r.Some? ==> forall j :: 0 <= j < r.value ==> !OccursAt(s, sub, j)
    ensures r.None? <==> forall j :: 0 <= j ==> !OccursAt(s, sub, j)
  {
    IndexOfFrom(s, sub, 0)
  }

  /** `s.includes(sub)` */
  predicate Includes(s: string, sub: string) {
    IndexOf(s, sub).Some?
  }

  /** `Includes` agrees with the existence of an occurrence, in both directions. */
  lemma IncludesIff(s: string, sub: string, i: nat)
    ensures OccursAt(s, sub, i) ==> Includes(s, sub)
    ensures Includes(s, sub) ==> OccursAt(s, sub, IndexOf(s, sub).value)
  {
  }

  /** An occurrence inside a slice of `s` is an occurrence inside `s`. */
  lemma {:induction false} OccursInSlice(s: string, lo: nat, hi: nat, sub: string, k: nat)
    requires lo <= hi <= |s|
    requires OccursAt(s[lo..hi], sub, k)
    ensures OccursAt(s, sub, lo + k)
  {
    var x, y := s[lo..hi][k..k + |sub|], s[lo + k..lo + k + |sub|];
    forall t | 0 <= t < |x| ensures x[t] == y[t] {
    }
    assert x == y;
  }

  /** A slice of `s` that `sub` does not occur in gives no occurrence to its own slices. */
  lemma {:induction false} NoOccurrenceInSlice(s: string, lo: nat, hi: nat, sub: string)
    requires lo <= hi <= |s|
    requires !Includes(s, sub)
    ensures !Includes(s[lo..hi], sub)
  {
    if Includes(s[lo..hi], sub) {
      var k := IndexOf(s[lo..hi], sub).value;
      OccursInSlice(s, lo, hi, sub, k);
      assert false;
    }
  }

  /**
   * `s.split(sep)[1]` for a separator that occurs in `s`: the text between
   * the end of the first occurrence and the start of the next one (or the
   * end of `s`), which holds no occurrence of `sep` itself.
   */
  function SecondPiece(s: string, sep: string): (r: string)
    requires sep != [] && Includes(s, sep)
    ensures var e := IndexOf(s, sep).value + |sep|;
      && OccursAt(s, r, e)
      && (e + |r| == |s| || OccursAt(s, sep, e + |r|))
    ensures var e := IndexOf(s, sep).value + |sep|;
      forall i :: e <= i < e + |r| ==> !OccursAt(s, sep, i)
    ensures !Includes(r, sep)
  {
    var e := IndexOf(s, sep).value + |sep|;
    var rest := s[e..];
    var next := IndexOf(rest, sep);
    if next.None? then
      SuffixOccurs(s, e);
      NoneAfter(s, sep, e);
      rest
    else
      var j := next.value;
      PieceBeforeNext(s, sep, e, j);
      assert |rest[..j]| == j;
      rest[..j]
  }

  /** An occurrence at or after `e` is an occurrence in the suffix `s[e..]`. */
  lemma OccursInSuffix(s: string, sub: string, e: nat, i: nat)
    requires e <= i && OccursAt(s, sub, i)
    ensures OccursAt(s[e..], sub, i - e)
  {
    assert s[e..][i - e..i - e + |sub|] == s[i..i + |sub|];
  }

  /** When `s[e..]` holds no `sub`, nothing occurs in `s` at or after `e`. */
  lemma NoneAfter(s: string, sub: string, e: nat)
    requires e <= |s| && IndexOf(s[e..], sub).None?
    ensures forall i :: e <= i ==> !OccursAt(s, sub, i)
  {
    forall i | e <= i && OccursAt(s, sub, i) ensures false {
      OccursInSuffix(s, sub, e, i);
    }
  }

  /** A suffix of `s` occurs in `s` where it starts. */
  lemma SuffixOccurs(s: string, e: nat)
    requires e <= |s|
    ensures OccursAt(s, s[e..], e) && e + |s[e..]| == |s|
  {
    assert s[e..e + |s[e..]|] == s[e..];
  }

  /**
   * When the first occurrence of `sep` in `s[e..]` is at `j`, the text before
   * it occurs in `s` at `e`, is followed by `sep`, and holds no `sep`.
   */
  lemma PieceBeforeNext(s: string, sep: string, e: nat, j: nat)
    requires sep != [] && e <= |s| && IndexOf(s[e..], sep) == Some(j)
    ensures OccursAt(s, s[e..][..j], e) && OccursAt(s, sep, e + j)
    ensures forall i :: e <= i < e + j ==> !OccursAt(s, sep, i)
    ensures !Includes(s[e..][..j], sep)
  {
    var rest := s[e..];
    assert s[e..e + j] == rest[..j];
    assert rest == s[e..|s|];
    OccursInSlice(s, e, |s|, sep, j);
    FirstOccurrenceSlice(rest, sep, j);
    forall i | e <= i < e + j && OccursAt(s, sep, i) ensures false {
      OccursInSuffix(s, sep, e, i);
    }
  }

  /** The text before the first occurrence of `sub` holds no occurrence of it. */
  lemma {:induction false} FirstOccurrenceSlice(s: string, sub: string, j: nat)
    requires sub != [] && IndexOf(s, sub) == Some(j)
    ensures !Includes(s[..j], sub)
  {
    if Includes(s[..j], sub) {
      var k := IndexOf(s[..j], sub).value;
      OccursInSlice(s, 0, j, sub, k);
      assert false;
    }
  }

  // ---------------------------------------------------------------------------
  // Counting a character, split on one character, and join
  // ---------------------------------------------------------------------------

  /** Number of occurrences of `c` in `s`. */
  function CountChar(s: string, c: char): nat
    decreases |s|
  {
    if s == [] then 0
    else CountChar(s[..|s| - 1], c) + (if s[|s| - 1] == c then 1 else 0)
  }

  /** Counting distributes over concatenation. */
  lemma {:induction false} CountCharAppend(a: string, b: string, c: char)
    ensures CountChar(a + b, c) == CountChar(a, c) + CountChar(b, c)
    decreases |b|
  {
    if b == [] {
      assert a + b == a;
    } else {
      assert (a + b)[..|a + b| - 1] == a + b[..|b| - 1];
      CountCharAppend(a, b[..|b| - 1], c);
    }
  }

  /** The inverse of `Split`: the pieces glued back with `sep` between them. */
  function Join(pieces: seq<string>, sep: char): string
    requires |pieces| > 0
    decreases |pieces|
  {
    if |pieces| == 1 then pieces[0]
    else Join(pieces[..|pieces| - 1], sep) + [sep] + pieces[|pieces| - 1]
  }

  /** Appending a piece appends a separator and the piece. */
  lemma {:induction false} JoinSnoc(pieces: seq<string>, p: string, sep: char)
    requires |pieces| > 0
    ensures Join(pieces + [p], sep) == Join(pieces, sep) + [sep] + p
  {
    assert (pieces + [p])[..|pieces|] == pieces;
  }

  /** Extending the last piece by `c` extends the joined text by `c`. */
  lemma {:induction false} JoinExtendLast(pieces: seq<string>, c: char, sep: char)
    requires |pieces| > 0
    ensures Join(pieces[..|pieces| - 1] + [pieces[|pieces| - 1] + [c]], sep) == Join(pieces, sep) + [c]
  {
    var k := |pieces| - 1;
    if k == 0 {
      assert pieces[..0] + [pieces[0] + [c]] == [pieces[0] + [c]];
    } else {
      JoinSnoc(pieces[..k], pieces[k] + [c], sep);
      JoinSnoc(pieces[..k], pieces[k], sep);
      assert pieces[..k] + [pieces[k]] == pieces;
    }
  }

  /** Joining `n` pieces puts `n - 1` separators in. */
  lemma {:induction false} JoinSeparators(pieces: seq<string>, sep: char)
    requires |pieces| > 0
    ensures CountChar(Join(pieces, sep), sep) >= |pieces| - 1
    decreases |pieces|
  {
    if |pieces| > 1 {
      var init := pieces[..|pieces| - 1];
      JoinSeparators(init, sep);
      CountCharAppend(Join(init, sep), [sep], sep);
      CountCharAppend(Join(init, sep) + [sep], pieces[|pieces| - 1], sep);
    }
  }

  /** Joining `n` pieces of at least `m` characters each gives at least `n * (m + 1) - 1` characters. */
  lemma {:induction false} JoinLength(pieces: seq<string>, sep: char, m: nat)
    requires |pieces| > 0
    requires forall i :: 0 <= i < |pieces| ==> |pieces[i]| >= m
    ensures |Join(pieces, sep)| >= |pieces| * (m + 1) - 1
    decreases |pieces|
  {
    if |pieces| > 1 {
      JoinLength(pieces[..|pieces| - 1], sep, m);
    }
  }

  /** `s.split(sep)` for a one-character separator `sep`. */
  function Split(s: string, sep: char): (r: seq<string>)
    ensures |r| == CountChar(s, sep) + 1
    ensures forall i :: 0 <= i < |r| ==> sep !in r[i]
    ensures Join(r, sep) == s
    decreases |s|
  {
    if s == [] then [""]
    else
      var init := Split(s[..|s| - 1], sep);
      var last := s[|s| - 1];
      assert s == s[..|s| - 1] + [last];
      if last == sep then
        JoinSnoc(init, "", sep);
        init + [""]
      else
        JoinExtendLast(init, last, sep);
        init[..|init| - 1] + [init[|init| - 1] + [last]]
  }

  // ---------------------------------------------------------------------------
  // Whitespace, trimming and whitespace runs
  // ---------------------------------------------------------------------------

  /**
   * ECMAScript WhiteSpace and LineTerminator characters: what the regex class
   * `\s` matches and what `String.prototype.trim` removes. The functions below
   * take the whitespace set as a parameter `ws`; the source always uses this one.
   */
  const Whitespace: set<char> := {
    '\t', '\n', '\U{000B}', '\U{000C}', '\r', ' ', '\U{00A0}', '\U{1680}',
    '\U{2000}', '\U{2001}', '\U{2002}', '\U{2003}', '\U{2004}', '\U{2005}',
    '\U{2006}', '\U{2007}', '\U{2008}', '\U{2009}', '\U{200A}',
    '\U{2028}', '\U{2029}', '\U{202F}', '\U{205F}', '\U{3000}', '\U{FEFF}'
  }

  /** No character of `s` is in `ws`. */
  predicate NoneIn(s: string, ws: set<char>) {
    forall i :: 0 <= i < |s| ==> s[i] !in ws
  }

  /** Neither end of `s` is in `ws`. */
  predicate Trimmed(s: string, ws: set<char>) {
    s == [] || (s[0] !in ws && s[|s| - 1] !in ws)
  }

  /** Index of the first character of `s` at or after `i` that is not in `ws` (`|s|` if none). */
  function SkipForward(s: string, ws: set<char>, i: nat): (n: nat)
    requires i <= |s|
    ensures i <= n <= |s|
    ensures forall k :: i <= k < n ==> s[k] in ws
    ensures n < |s| ==> s[n] !in ws
    decreases |s| - i
  {
    if i < |s| && s[i] in ws then SkipForward(s, ws, i + 1) else i
  }

  /**
   * End of the last character of `s[lo..hi]` that is not in `ws` (`lo` if
   * none): the characters from there up to `hi` are all in `ws`.
   */
  function SkipBackward(s: string, ws: set<char>, lo: nat, hi: nat): (n: nat)
    requires lo <= hi <= |s|
    ensures lo <= n <= hi
    ensures forall k :: n <= k < hi ==> s[k] in ws
    ensures n > lo ==> s[n - 1] !in ws
    decreases hi
  {
    if lo < hi && s[hi - 1] in ws then SkipBackward(s, ws, lo, hi - 1) else hi
  }

  /**
   * `s.trim()`: the slice of `s` that is left after dropping the whitespace
   * at both ends, and nothing else.
   */
  function Trim(s: string, ws: set<char>): (r: string)
    ensures Trimmed(r, ws)
    ensures SliceAt(s, r, SkipForward(s, ws, 0), ws)
  {
    var lo := SkipForward(s, ws, 0);
    var hi := SkipBackward(s, ws, lo, |s|);
    s[lo..hi]
  }

  /**
   * `r` occurs in `s` at offset `lo`, and every character of `s` before and
   * after that occurrence is in `ws`.
   */
  predicate SliceAt(s: string, r: string, lo: nat, ws: set<char>) {
    && OccursAt(s, r, lo)
    && (forall i :: 0 <= i < lo ==> s[i] in ws)
    && (forall i :: lo + |r| <= i < |s| ==> s[i] in ws)
  }

  /** Trimming neither lengthens a string nor creates an occurrence of `sub` in it. */
  lemma TrimAvoids(s: string, sub: string, ws: set<char>)
    requires !Includes(s, sub)
    ensures |Trim(s, ws)| <= |s| && !Includes(Trim(s, ws), sub)
  {
    var lo := SkipForward(s, ws, 0);
    NoOccurrenceInSlice(s, lo, lo + |Trim(s, ws)|, sub);
  }

  /** Trimming is idempotent, and it leaves an already trimmed string alone. */
  lemma TrimTrimmed(s: string, ws: set<char>)
    ensures Trimmed(s, ws) ==> Trim(s, ws) == s
    ensures Trim(Trim(s, ws), ws) == Trim(s, ws)
  {
    if Trimmed(s, ws) {
      TrimOfTrimmed(s, ws);
    }
    TrimOfTrimmed(Trim(s, ws), ws);
  }

  lemma TrimOfTrimmed(s: string, ws: set<char>)
    requires Trimmed(s, ws)
    ensures Trim(s, ws) == s
  {
    assert SkipForward(s, ws, 0) == 0;
    assert SkipBackward(s, ws, 0, |s|) == |s|;
  }

  /**
   * `s.replace(/\s+/g, '-')`: every maximal run of whitespace becomes one `'-'`.
   * Scanned from the right: a whitespace character adds a dash only when the
   * character before it is not whitespace as well.
   */
  function DashRuns(s: string, ws: set<char>): (r: string)
    requires '-' !in ws
    ensures NoneIn(r, ws)
    ensures |r| <= |s| && (r == [] <==> s == [])
    ensures NoneIn(s, ws) ==> r == s
    ensures s != [] && s[|s| - 1] in ws ==> r[|r| - 1] == '-'
    decreases |s|
  {
    if s == [] then []
    else DashRuns(s[..|s| - 1], ws) + RunTail(s[..|s| - 1], s[|s| - 1], ws)
  }

  /**
   * What the character `last` adds after the text `init`: itself when it is
   * not whitespace, a dash when it starts a whitespace run, nothing when it
   * continues one.
   */
  function RunTail(init: string, last: char, ws: set<char>): string {
    if last !in ws then [last]
    else if init != [] && init[|init| - 1] in ws then []
    else ['-']
  }

  /** The characters of `s` other than whitespace and `'-'`, in order. */
  function Letters(s: string, ws: set<char>): string
    decreases |s|
  {
    if s == [] then []
    else Letters(s[..|s| - 1], ws) + (if s[|s| - 1] in ws || s[|s| - 1] == '-' then [] else [s[|s| - 1]])
  }

  /** `Letters` distributes over concatenation. */
  lemma {:induction false} LettersAppend(a: string, b: string, ws: set<char>)
    ensures Letters(a + b, ws) == Letters(a, ws) + Letters(b, ws)
    decreases |b|
  {
    if b == [] {
      assert a + b == a;
    } else {
      assert (a + b)[..|a + b| - 1] == a + b[..|b| - 1];
      LettersAppend(a, b[..|b| - 1], ws);
    }
  }

  /** Replacing whitespace runs keeps every other character, in its order. */
  lemma {:induction false} DashRunsKeepsLetters(s: string, ws: set<char>)
    requires '-' !in ws
    ensures Letters(DashRuns(s, ws), ws) == Letters(s, ws)
    decreases |s|
  {
    if s != [] {
      var init := s[..|s| - 1];
      var last := s[|s| - 1];
      DashRunsKeepsLetters(init, ws);
      LettersAppend(DashRuns(init, ws), RunTail(init, last, ws), ws);
      LettersOfTail(init, last, ws);
    }
  }

  /** What `RunTail` contributes to `Letters`: the character itself, unless it is whitespace or a dash. */
  lemma LettersOfTail(init: string, last: char, ws: set<char>)
    requires '-' !in ws
    ensures Letters(RunTail(init, last, ws), ws) == if last in ws || last == '-' then [] else [last]
  {
    assert ['-'][..0] == [];
    assert [last][..0] == [];
  }

  /** A non-empty run made only of whitespace becomes a single dash. */
  lemma {:induction false} DashRunsOfRun(w: string, ws: set<char>)
    requires '-' !in ws
    requires w != [] && forall i :: 0 <= i < |w| ==> w[i] in ws
    ensures DashRuns(w, ws) == "-"
    decreases |w|
  {
    if |w| > 1 {
      DashRunsOfRun(w[..|w| - 1], ws);
    }
  }

  /**
   * Runs do not merge across a non-whitespace boundary: the replacement of a
   * concatenation is the concatenation of the replacements.
   */
  lemma {:induction false} DashRunsAppend(a: string, b: string, ws: set<char>)
    requires '-' !in ws
    requires a == [] || b == [] || a[|a| - 1] !in ws || b[0] !in ws
    ensures DashRuns(a + b, ws) == DashRuns(a, ws) + DashRuns(b, ws)
    decreases |b|
  {
    if b == [] {
      assert a + b == a;
    } else {
      var b', last := b[..|b| - 1], b[|b| - 1];
      var x' := a + b';
      assert b == b' + [last];
      assert a + b == x' + [last];
      if b' == [] {
        assert x' == a;
      } else {
        assert b'[0] == b[0] && x'[|x'| - 1] == b'[|b'| - 1];
        DashRunsAppend(a, b', ws);
      }
      assert RunTail(x', last, ws) == RunTail(b', last, ws);
      DashRunsAppendStep(a, b', last, ws);
    }
  }

  lemma {:induction false} DashRunsAppendStep(a: string, b': string, last: char, ws: set<char>)
    requires '-' !in ws
    requires DashRuns(a + b', ws) == DashRuns(a, ws) + DashRuns(b', ws)
    requires RunTail(a + b', last, ws) == RunTail(b', last, ws)
    ensures DashRuns(a + (b' + [last]), ws) == DashRuns(a, ws) + DashRuns(b' + [last], ws)
  {
    Assoc(a, b', [last]);
    DashRunsStep(a + b', last, ws);
    DashRunsStep(b', last, ws);
    Assoc(DashRuns(a, ws), DashRuns(b', ws), RunTail(b', last, ws));
  }

  /** Concatenation is associative (kept apart so no other facts are in scope). */
  lemma Assoc<T>(x: seq<T>, y: seq<T>, z: seq<T>)
    ensures (x + y) + z == x + (y + z)
  {
  }

  /** One step of the scan from the right. */
  lemma {:induction false} DashRunsStep(init: string, last: char, ws: set<char>)
    requires '-' !in ws
    ensures DashRuns(init + [last], ws) == DashRuns(init, ws) + RunTail(init, last, ws)
  {
    assert (init + [last])[..|init|] == init;
  }

  // ---------------------------------------------------------------------------
  // Substring and number rendering
  // ---------------------------------------------------------------------------

  /** `s.substring(0, n)`: at most the first `n` characters. */
  function Prefix(s: string, n: nat): (r: string)
    ensures |r| <= n && |r| <= |s| && r == s[..|r|]
    ensures |s| <= n ==> r == s
    ensures |s| >= n ==> |r| == n
  {
    if |s| <= n then s else s[..n]
  }

  /** The decimal digit for `d`. */
  function Digit(d: nat): char
    requires d < 10
  {
    "0123456789"[d]
  }

  predicate IsDigit(c: char) {
    '0' <= c <= '9'
  }

  /** The decimal rendering of a non-negative integer, as `${n}` gives it. */
  function DecimalString(n: nat): (r: string)
    ensures r != [] && forall i :: 0 <= i < |r| ==> IsDigit(r[i])
    ensures r[0] == '0' <==> n == 0
    decreases n
  {
    if n < 10 then [Digit(n)]
    else
      var r := DecimalString(n / 10) + [Digit(n % 10)];
      assert r[0] == DecimalString(n / 10)[0];
      r
  }

  /** Reads a string of decimal digits back as a number. */
  function ParseDecimal(s: string): nat
    requires forall i :: 0 <= i < |s| ==> IsDigit(s[i])
    decreases |s|
  {
    if s == [] then 0
    else
      assert IsDigit(s[|s| - 1]);
      ParseDecimal(s[..|s| - 1]) * 10 + ((s[|s| - 1] as int) - ('0' as int))
  }

  /** The rendering loses nothing: reading it back gives the number. */
  lemma {:induction false} DecimalRoundTrip(n: nat)
    ensures ParseDecimal(DecimalString(n)) == n
    decreases n
  {
    if n >= 10 {
      var init := DecimalString(n / 10);
      assert (init + [Digit(n % 10)])[..|init|] == init;
      DecimalRoundTrip(n / 10);
    }
  }
}
