/** String helpers with Python's meaning: character classes, ASCII case mapping,
    `strip`, substring search, `join`/`split`, decimal rendering and `repr`. */
module Text {
  import opened Common

  // ---------------------------------------------------------------------------
  // Character classes
  // ---------------------------------------------------------------------------

  /** Python's `str.isspace()` (also the set `\s` matches in a `str` pattern). */
  predicate IsSpace(c: char) {
    || c == ' '
    || ('\t' <= c <= '\r')
    || ('\U{1c}' <= c <= '\U{1f}')
    || c == '\U{85}' || c == '\U{a0}' || c == '\U{1680}'
    || ('\U{2000}' <= c <= '\U{200a}')
    || c == '\U{2028}' || c == '\U{2029}' || c == '\U{202f}' || c == '\U{205f}' || c == '\U{3000}'
  }

  predicate IsUpperAscii(c: char) { 'A' <= c <= 'Z' }

  predicate IsLowerAscii(c: char) { 'a' <= c <= 'z' }

  predicate IsDigit(c: char) { '0' <= c <= '9' }

  /** The class `[a-zA-Z0-9_]` (the model's reading of `\w`). */
  predicate IsWordChar(c: char) { IsUpperAscii(c) || IsLowerAscii(c) || IsDigit(c) || c == '_' }

  /** The class `[a-zA-Z_]`. */
  predicate IsIdentStart(c: char) { IsUpperAscii(c) || IsLowerAscii(c) || c == '_' }

  /** Every character of `s` is a word character. */
  predicate AllWordChars(s: string) { forall k :: 0 <= k < |s| ==> IsWordChar(s[k]) }

  /** Every character of `s` is white space (vacuously true of ""). */
  predicate IsBlank(s: string) { forall k :: 0 <= k < |s| ==> IsSpace(s[k]) }

  // ---------------------------------------------------------------------------
  // ASCII case mapping
  // ---------------------------------------------------------------------------

  function LowerChar(c: char): char {
    if IsUpperAscii(c) then (c as int + 32) as char else c
  }

  function UpperChar(c: char): char {
    if IsLowerAscii(c) then (c as int - 32) as char else c
  }

  /** `s.lower()` on the ASCII letters. */
  function Lower(s: string): (r: string)
    ensures |r| == |s|
    ensures forall i :: 0 <= i < |s| ==> r[i] == LowerChar(s[i])
  {
    seq(|s|, i requires 0 <= i < |s| => LowerChar(s[i]))
  }

  /** `s.upper()` on the ASCII letters. */
  function Upper(s: string): (r: string)
    ensures |r| == |s|
    ensures forall i :: 0 <= i < |s| ==> r[i] == UpperChar(s[i])
  {
    seq(|s|, i requires 0 <= i < |s| => UpperChar(s[i]))
  }

  /** Lower-casing forgets an earlier upper-casing. */
  lemma LowerOfUpper(s: string)
    ensures Lower(Upper(s)) == Lower(s)
  {
    forall i | 0 <= i < |s| ensures Lower(Upper(s))[i] == Lower(s)[i] {
      assert Upper(s)[i] == UpperChar(s[i]);
    }
  }

  /** `t` starts with the upper-case word `w`, in any letter case. */
  predicate StartsWithWord(t: string, w: string) {
    |w| <= |t| && (w == [] || (UpperChar(t[0]) == w[0] && StartsWithWord(t[1..], w[1..])))
  }

  /** `s` holds at position `i` the upper-case word `w`, in any letter case
      (a case-insensitive literal match). */
  predicate WordAt(s: string, i: int, w: string) {
    0 <= i <= |s| && StartsWithWord(s[i..], w)
  }

  /** A word found in a text fits inside it. */
  lemma WordAtFits(s: string, i: int, w: string)
    ensures WordAt(s, i, w) ==> i + |w| <= |s|
  {
    if WordAt(s, i, w) {
      WordAtChars(s, i, w);
    }
  }

  /** `WordAt` character by character. */
  lemma {:induction false} WordAtChars(s: string, i: int, w: string)
    requires WordAt(s, i, w)
    ensures i + |w| <= |s| && forall k :: 0 <= k < |w| ==> UpperChar(s[i + k]) == w[k]
    decreases |w|
  {
    if w != [] {
      assert s[i..][1..] == s[i + 1..];
      WordAtChars(s, i + 1, w[1..]);
      assert forall k :: 1 <= k < |w| ==> w[k] == w[1..][k - 1] && i + k == (i + 1) + (k - 1);
    }
  }

  /** `WordAt` from its characters (the converse of `WordAtChars`). */
  lemma {:induction false} CharsWordAt(s: string, i: nat, w: string)
    requires i + |w| <= |s| && forall k :: 0 <= k < |w| ==> UpperChar(s[i + k]) == w[k]
    ensures WordAt(s, i, w)
    decreases |w|
  {
    if w != [] {
      assert forall k :: 0 <= k < |w| - 1 ==> UpperChar(s[(i + 1) + k]) == w[1..][k] by {
        forall k | 0 <= k < |w| - 1 ensures UpperChar(s[(i + 1) + k]) == w[1..][k] {
          assert UpperChar(s[i + (k + 1)]) == w[k + 1];
        }
      }
      CharsWordAt(s, i + 1, w[1..]);
      assert s[i..][1..] == s[i + 1..];
      assert UpperChar(s[i..][0]) == w[0];
    }
  }

  /** `s` holds at position `i` exactly the characters of `p`. */
  predicate OccursAt(s: string, i: int, p: string) {
    0 <= i && i + |p| <= |s| && s[i..i + |p|] == p
  }

  // ---------------------------------------------------------------------------
  // strip
  // ---------------------------------------------------------------------------

  /** Whether `strip(chars)` removes `c`: white space when `chars` is absent
      (`s.strip()`), else membership in `chars` (`s.strip(chars)`). */
  predicate Strippable(c: char, chars: Option<string>) {
    match chars
    case None => IsSpace(c)
    case Some(cs) => c in cs
  }

  function TrimStart(s: string, chars: Option<string>): (r: string)
    ensures |r| <= |s| && r == s[|s| - |r|..]
    ensures r == [] || !Strippable(r[0], chars)
    ensures forall k :: 0 <= k < |s| - |r| ==> Strippable(s[k], chars)
  {
    if s != [] && Strippable(s[0], chars) then
      var r := TrimStart(s[1..], chars);
      assert s[1..][|s| - 1 - |r|..] == s[|s| - |r|..];
      assert forall k :: 1 <= k < |s| - |r| ==> s[k] == s[1..][k - 1];
      r
    else s
  }

  function TrimEnd(s: string, chars: Option<string>): (r: string)
    ensures r <= s
    ensures r == [] || !Strippable(r[|r| - 1], chars)
    ensures forall k :: |r| <= k < |s| ==> Strippable(s[k], chars)
  {
    if s != [] && Strippable(s[|s| - 1], chars) then TrimEnd(s[..|s| - 1], chars) else s
  }

  /** How many characters `strip` removes from the front of `s`. */
  function StripOffset(s: string, chars: Option<string>): nat
    ensures StripOffset(s, chars) <= |s|
  {
    |s| - |TrimStart(s, chars)|
  }

  /** `s.strip()` (chars absent) or `s.strip(chars)`: the slice of `s` left
      when strippable characters are removed from both ends. */
  function StripWith(s: string, chars: Option<string>): (r: string)
    ensures StripOffset(s, chars) + |r| <= |s| && r == s[StripOffset(s, chars)..StripOffset(s, chars) + |r|]
    ensures r == [] || (!Strippable(r[0], chars) && !Strippable(r[|r| - 1], chars))
  {
    var t := TrimStart(s, chars);
    var r := TrimEnd(t, chars);
    PrefixOfSuffix(s, t, r);
    assert StripOffset(s, chars) == |s| - |t|;
    r
  }

  /** A prefix `r` of a suffix `t` of `s` is the slice of `s` where `t`
      starts, and shares `t`'s first character. */
  lemma PrefixOfSuffix(s: string, t: string, r: string)
    requires |t| <= |s| && t == s[|s| - |t|..] && r <= t
    ensures |s| - |t| + |r| <= |s| && r == s[|s| - |t|..|s| - |t| + |r|]
    ensures r != [] ==> r[0] == t[0]
  {
    var o := |s| - |t|;
    assert r == t[..|r|];
    assert forall k :: 0 <= k < |r| ==> r[k] == t[k] == s[o + k];
  }

  /** Python's `s.strip()`. */
  function Strip(s: string): (r: string)
    ensures StripOffset(s, None) + |r| <= |s| && r == s[StripOffset(s, None)..StripOffset(s, None) + |r|]
    ensures r == [] || (!IsSpace(r[0]) && !IsSpace(r[|r| - 1]))
  {
    StripWith(s, None)
  }

  /** Stripping removes exactly the blank strings. */
  lemma StripEmptyIffBlank(s: string)
    ensures Strip(s) == [] <==> IsBlank(s)
  {
    var t := TrimStart(s, None);
    if t != [] {
      assert !IsSpace(t[0]);
      assert TrimEnd(t, None) != [];
    }
  }

  /** Stripping only removes characters: one missing from `s` is missing
      from its strip. */
  lemma StripKeepsAbsent(s: string, c: char)
    requires c !in s
    ensures c !in Strip(s)
  {
    var o := StripOffset(s, None);
    var r := Strip(s);
    assert r == s[o..o + |r|];
    assert forall k :: 0 <= k < |r| ==> r[k] == s[o + k];
  }

  /** A string that starts with a non-space character keeps that character
      in front after stripping. */
  lemma StripKeepsNonSpaceFront(s: string)
    requires s != [] && !IsSpace(s[0])
    ensures Strip(s) != [] && Strip(s) <= s
  {
    assert TrimStart(s, None) == s;
    assert s[0] == s[0..1][0];
    assert !Strippable(s[0], None);
  }

  /** A string with no white space at either end is its own strip. */
  lemma StripFixesTrimmed(s: string)
    requires s == [] || (!IsSpace(s[0]) && !IsSpace(s[|s| - 1]))
    ensures Strip(s) == s
  {
    if s != [] {
      assert !Strippable(s[0], None);
      assert TrimStart(s, None) == s;
      assert !Strippable(s[|s| - 1], None);
    }
  }

  /** A string that starts and ends with a word character is its own strip. */
  lemma StripFixesWordEnds(s: string)
    requires s != [] && IsWordChar(s[0]) && IsWordChar(s[|s| - 1])
    ensures Strip(s) == s
  {
    assert !IsSpace(s[0]) && !IsSpace(s[|s| - 1]);
    StripFixesTrimmed(s);
  }

  /** A string with no strippable character at either end is its own
      `strip(chars)`. */
  lemma StripWithFixesTrimmed(s: string, chars: Option<string>)
    requires s == [] || (!Strippable(s[0], chars) && !Strippable(s[|s| - 1], chars))
    ensures StripWith(s, chars) == s
  {
    if s != [] {
      assert TrimStart(s, chars) == s;
    }
  }

  /** `strip(chars)` keeps a first character it does not remove. */
  lemma StripWithKeepsFront(s: string, chars: Option<string>)
    requires s != [] && !Strippable(s[0], chars)
    ensures StripWith(s, chars) != [] && StripWith(s, chars)[0] == s[0]
  {
    assert TrimStart(s, chars) == s;
  }

  // ---------------------------------------------------------------------------
  // Substring search
  // ---------------------------------------------------------------------------

  /** The first position at which `p` occurs in `s` (`s.find(p)`, None for -1). */
  function IndexOf(s: string, p: string): (r: Option<nat>)
    ensures r.Some? ==> OccursAt(s, r.value, p)
    ensures r.Some? ==> forall j :: 0 <= j < r.value ==> !OccursAt(s, j, p)
    ensures r.None? ==> forall j :: !OccursAt(s, j, p)
    decreases |s|
  {
    if |p| > |s| then None
    else if s[..|p|] == p then Some(0)
    else match IndexOf(s[1..], p)
      case Some(k) =>
        OccursShift(s, p);
        Some(k + 1)
      case None =>
        OccursShift(s, p);
        None
  }

  /** An occurrence past the front of `s` is one in `s[1..]`, one place earlier. */
  lemma OccursShift(s: string, p: string)
    requires s != []
    ensures forall j :: 1 <= j ==> (OccursAt(s, j, p) <==> OccursAt(s[1..], j - 1, p))
  {
    forall j | 1 <= j
      ensures OccursAt(s, j, p) <==> OccursAt(s[1..], j - 1, p)
    {
      if j + |p| <= |s| {
        assert s[j..j + |p|] == s[1..][j - 1..j - 1 + |p|];
      }
    }
  }

  /** Python's `p in s` for strings. */
  predicate Contains(s: string, p: string) {
    IndexOf(s, p).Some?
  }

  lemma ContainsIff(s: string, p: string)
    ensures Contains(s, p) <==> exists j :: OccursAt(s, j, p)
  {
  }

  /** An occurrence of `p` inside a slice of `s` is an occurrence in `s`. */
  lemma ContainsOfSlice(s: string, i: nat, j: nat, p: string)
    requires i <= j <= |s|
    requires Contains(s[i..j], p)
    ensures Contains(s, p)
  {
    var k := IndexOf(s[i..j], p).value;
    assert OccursAt(s[i..j], k, p);
    assert k + |p| <= j - i;
    forall m | 0 <= m < |p| ensures s[i + k..i + k + |p|][m] == p[m] {
      assert s[i..j][k..k + |p|][m] == p[m];
      assert s[i..j][k..k + |p|][m] == s[i..j][k + m];
      assert s[i..j][k + m] == s[i + k + m];
      assert s[i + k..i + k + |p|][m] == s[i + k + m];
    }
    assert OccursAt(s, i + k, p);
  }

  /** A string contains each of its own slices. */
  lemma ContainsSlice(s: string, i: nat, j: nat)
    requires i <= j <= |s|
    ensures Contains(s, s[i..j])
  {
    assert OccursAt(s, i, s[i..j]);
  }

  /** The first position at or after `from` where `p` occurs (the search a
      lazy `[\s\S]*?p` or `str.find(p, from)` performs). */
  function FindFrom(s: string, p: string, from: nat): (r: Option<nat>)
    ensures r.Some? ==> from <= r.value && OccursAt(s, r.value, p)
    ensures r.Some? ==> forall i :: from <= i < r.value ==> !OccursAt(s, i, p)
    ensures r.None? ==> forall i :: from <= i ==> !OccursAt(s, i, p)
    decreases |s| - from
  {
    if from + |p| > |s| then None
    else if OccursAt(s, from, p) then Some(from)
    else FindFrom(s, p, from + 1)
  }

  /** The length of the run of white space that starts `s` (a greedy `\s*`). */
  function SpaceRun(s: string): (n: nat)
    ensures n <= |s|
    ensures n == |s| || !IsSpace(s[n])
  {
    if s == [] || !IsSpace(s[0]) then 0 else 1 + SpaceRun(s[1..])
  }

  lemma {:induction false} SpaceRunIsSpace(s: string)
    ensures forall k :: 0 <= k < SpaceRun(s) ==> IsSpace(s[k])
  {
    if s != [] && IsSpace(s[0]) {
      SpaceRunIsSpace(s[1..]);
      assert forall k :: 1 <= k < SpaceRun(s) ==> s[k] == s[1..][k - 1];
    }
  }

  /** `s` ends with `suffix` (`s.endswith(suffix)`). */
  predicate EndsWith(s: string, suffix: string) {
    |suffix| <= |s| && s[|s| - |suffix|..] == suffix
  }

  /** Text ending with a non-empty suffix ends with its last character. */
  lemma SuffixLastChar(s: string, suffix: string)
    requires suffix != []
    ensures EndsWith(s, suffix) ==> s[|s| - 1] == suffix[|suffix| - 1]
  {
    if EndsWith(s, suffix) {
      assert s[|s| - |suffix|..][|suffix| - 1] == s[|s| - 1];
    }
  }

  /** A non-empty occurrence at `i` starts with the pattern's first character. */
  lemma OccursAtFront(s: string, i: int, p: string)
    requires p != []
    ensures OccursAt(s, i, p) ==> s[i] == p[0]
  {
    if OccursAt(s, i, p) {
      assert s[i..i + |p|][0] == s[i];
    }
  }

  lemma EndsWithLast(s: string, c: char)
    requires s != [] && s[|s| - 1] == c
    ensures EndsWith(s, [c])
  {
    assert s[|s| - 1..] == [c];
  }

  /** The length of the run of word characters `[A-Za-z0-9_]` that starts `s`. */
  function WordRun(s: string): (n: nat)
    ensures n <= |s|
    ensures forall k :: 0 <= k < n ==> IsWordChar(s[k])
    ensures n == |s| || !IsWordChar(s[n])
  {
    if s == [] || !IsWordChar(s[0]) then 0 else 1 + WordRun(s[1..])
  }

  /** A word is one run of word characters. */
  lemma WholeWordRun(w: string)
    requires AllWordChars(w)
    ensures WordRun(w) == |w|
  {
  }

  /** The run over a word stops at a following non-word character. */
  lemma WordRunStops(w: string, t: string)
    requires AllWordChars(w) && t != [] && !IsWordChar(t[0])
    ensures WordRun(w + t) == |w|
  {
    assert (w + t)[|w|] == t[0];
  }

  lemma WordRunPrefix(s: string)
    ensures AllWordChars(s[..WordRun(s)])
  {
    var n := WordRun(s);
    forall k | 0 <= k < n ensures IsWordChar(s[..n][k]) {
      assert s[..n][k] == s[k];
    }
  }

  /** A word run that stops inside `s` is not lengthened by text after `s`. */
  lemma {:induction false} WordRunKept(s: string, z: string)
    requires WordRun(s) < |s|
    ensures WordRun(s + z) == WordRun(s)
  {
    assert (s + z)[0] == s[0];
    if IsWordChar(s[0]) {
      assert (s + z)[1..] == s[1..] + z;
      WordRunKept(s[1..], z);
    }
  }

  /** A word followed by a non-word character, or by nothing, is the whole
      word run. */
  lemma WordRunOfWord(w: string, z: string)
    requires AllWordChars(w)
    requires z == [] || !IsWordChar(z[0])
    ensures WordRun(w + z) == |w|
  {
    if z == [] {
      assert w + z == w;
      WholeWordRun(w);
    } else {
      WordRunStops(w, z);
    }
  }

  /** The number of times `c` occurs in `s`. */
  function CountChar(s: string, c: char): nat {
    if s == [] then 0 else (if s[0] == c then 1 else 0) + CountChar(s[1..], c)
  }

  /** `s.replace(c, "")`: `s` without any `c`. */
  function Without(s: string, c: char): (r: string)
    ensures c !in r && |r| <= |s|
  {
    if s == [] then [] else (if s[0] == c then [] else [s[0]]) + Without(s[1..], c)
  }

  lemma {:induction false} CountCharNone(s: string, c: char)
    requires c !in s
    ensures CountChar(s, c) == 0
  {
    if s != [] {
      assert c !in s[1..];
      CountCharNone(s[1..], c);
    }
  }

  /** A prefix free of `c` adds nothing to the count. */
  lemma {:induction false} CountCharSkip(s: string, j: nat, c: char)
    requires j <= |s| && forall k :: 0 <= k < j ==> s[k] != c
    ensures CountChar(s, c) == CountChar(s[j..], c)
  {
    if j > 0 {
      CountCharSkip(s[1..], j - 1, c);
      assert s[1..][j - 1..] == s[j..];
    }
  }

  lemma CountCharCons(x: char, r: string, c: char)
    ensures CountChar([x] + r, c) == (if x == c then 1 else 0) + CountChar(r, c)
  {
    assert ([x] + r)[1..] == r;
  }

  lemma {:induction false} CountCharAppend(a: string, b: string, c: char)
    ensures CountChar(a + b, c) == CountChar(a, c) + CountChar(b, c)
  {
    if a == [] {
      assert a + b == b;
    } else {
      CountCharAppend(a[1..], b, c);
      assert (a + b)[0] == a[0];
      assert (a + b)[1..] == a[1..] + b;
    }
  }

  // ---------------------------------------------------------------------------
  // join / split
  // ---------------------------------------------------------------------------

  /** Python's `sep.join(parts)`. */
  function Join(sep: string, parts: seq<string>): string {
    if |parts| == 0 then ""
    else if |parts| == 1 then parts[0]
    else parts[0] + sep + Join(sep, parts[1..])
  }

  /** A join of pieces without `c`, with a separator without `c`, holds no `c`. */
  lemma {:induction false} JoinAvoids(sep: string, parts: seq<string>, c: char)
    requires c !in sep && forall k :: 0 <= k < |parts| ==> c !in parts[k]
    ensures c !in Join(sep, parts)
  {
    if |parts| > 1 {
      JoinAvoids(sep, parts[1..], c);
      assert c !in parts[0];
    }
  }

  /** Python's `s.split(c)` for a one-character separator: never an empty list. */
  function Split(s: string, c: char): (r: seq<string>)
    ensures |r| >= 1
    ensures forall k :: 0 <= k < |r| ==> c !in r[k]
  {
    if s == [] then [""]
    else
      var t := Split(s[1..], c);
      if s[0] == c then [""] + t else [[s[0]] + t[0]] + t[1..]
  }

  /** Joining the pieces of a split gives the original string back. */
  lemma {:induction false} JoinSplit(s: string, c: char)
    ensures Join([c], Split(s, c)) == s
  {
    if s != [] {
      JoinSplit(s[1..], c);
      var t := Split(s[1..], c);
      if s[0] == c {
        assert Split(s, c) == [""] + t;
        JoinPrepend("", t, [c]);
      } else {
        assert Split(s, c) == [[s[0]] + t[0]] + t[1..];
        JoinExtendFirst(s[0], t, [c]);
      }
      assert s == [s[0]] + s[1..];
    }
  }

  /** A piece in front of a non-empty list joins in front of its join. */
  lemma JoinPrepend(x: string, t: seq<string>, sep: string)
    requires t != []
    ensures Join(sep, [x] + t) == x + sep + Join(sep, t)
  {
    assert ([x] + t)[1..] == t;
  }

  /** A character in front of the first piece goes in front of the join. */
  lemma JoinExtendFirst(ch: char, t: seq<string>, sep: string)
    requires t != []
    ensures Join(sep, [[ch] + t[0]] + t[1..]) == [ch] + Join(sep, t)
  {
    var u := [[ch] + t[0]] + t[1..];
    if |t| > 1 {
      assert u[1..] == t[1..];
      AppendAssoc([ch], t[0], sep + Join(sep, t[1..]));
      AppendAssoc(t[0], sep, Join(sep, t[1..]));
      AppendAssoc([ch] + t[0], sep, Join(sep, t[1..]));
    }
  }

  /** Splitting the join of separator-free pieces gives the pieces back. */
  lemma {:induction false} SplitJoin(parts: seq<string>, c: char)
    requires |parts| >= 1
    requires forall k :: 0 <= k < |parts| ==> c !in parts[k]
    ensures Split(Join([c], parts), c) == parts
  {
    if |parts| == 1 {
      SplitNoSep(parts[0], c);
    } else {
      SplitJoin(parts[1..], c);
      SplitAppendSep(parts[0], c, Join([c], parts[1..]));
      assert [parts[0]] + parts[1..] == parts;
    }
  }

  lemma {:induction false} SplitNoSep(s: string, c: char)
    requires c !in s
    ensures Split(s, c) == [s]
  {
    if s != [] {
      SplitNoSep(s[1..], c);
      assert s == [s[0]] + s[1..];
    }
  }

  lemma {:induction false} SplitAppendSep(a: string, c: char, b: string)
    requires c !in a
    ensures Split(a + [c] + b, c) == [a] + Split(b, c)
  {
    if a == [] {
      assert [c] + b == a + [c] + b;
      assert ([c] + b)[1..] == b;
    } else {
      SplitAppendSep(a[1..], c, b);
      assert (a + [c] + b)[1..] == a[1..] + [c] + b;
      assert a == [a[0]] + a[1..];
    }
  }

  // ---------------------------------------------------------------------------
  // Character replacement
  // ---------------------------------------------------------------------------

  /** Python's `s.replace(x, y)` for one-character `x` and `y`. */
  function ReplaceChar(s: string, x: char, y: char): (r: string)
    ensures |r| == |s|
    ensures forall i :: 0 <= i < |s| ==> r[i] == (if s[i] == x then y else s[i])
  {
    seq(|s|, i requires 0 <= i < |s| => if s[i] == x then y else s[i])
  }

  // ---------------------------------------------------------------------------
  // Decimal rendering
  // ---------------------------------------------------------------------------

  function DigitChar(d: nat): char
    requires d < 10
  {
    ('0' as int + d) as char
  }

  /** `str(n)` for a natural number: a non-empty run of decimal digits. */
  function NatToString(n: nat): (r: string)
    ensures |r| >= 1
    ensures forall k :: 0 <= k < |r| ==> IsDigit(r[k])
  {
    if n < 10 then [DigitChar(n)] else NatToString(n / 10) + [DigitChar(n % 10)]
  }

  function DigitValue(c: char): nat
    requires IsDigit(c)
  {
    c as int - '0' as int
  }

  /** The number a run of decimal digits denotes. */
  function DigitsValue(s: string): nat
    requires forall k :: 0 <= k < |s| ==> IsDigit(s[k])
  {
    if s == [] then 0 else 10 * DigitsValue(s[..|s| - 1]) + DigitValue(s[|s| - 1])
  }

  /** Reading back the digits of `str(n)` gives `n`. */
  lemma {:induction false} NatToStringRoundTrip(n: nat)
    ensures DigitsValue(NatToString(n)) == n
  {
    if n >= 10 {
      NatToStringRoundTrip(n / 10);
      var s := NatToString(n);
      assert s[..|s| - 1] == NatToString(n / 10);
    }
  }

  /** `str(i)` for an integer. */
  function IntToString(i: int): string {
    if i < 0 then "-" + NatToString(-i) else NatToString(i)
  }

  // ---------------------------------------------------------------------------
  // repr of strings and lists of strings
  // ---------------------------------------------------------------------------

  function HexDigit(d: nat): char
    requires d < 16
  {
    if d < 10 then DigitChar(d) else ('a' as int + d - 10) as char
  }

  predicate IsHexDigit(c: char) { IsDigit(c) || 'a' <= c <= 'f' }

  function HexDigitValue(c: char): nat
    requires IsHexDigit(c)
  {
    if IsDigit(c) then DigitValue(c) else c as int - 'a' as int + 10
  }

  function Pow16(w: nat): nat {
    if w == 0 then 1 else 16 * Pow16(w - 1)
  }

  /** `n` written with exactly `w` lower-case hex digits, as `%0wx` does. */
  function HexDigits(n: nat, w: nat): (r: string)
    requires n < Pow16(w)
    ensures |r| == w && forall k :: 0 <= k < |r| ==> IsHexDigit(r[k])
  {
    if w == 0 then "" else HexDigits(n / 16, w - 1) + [HexDigit(n % 16)]
  }

  /** The number a run of hex digits denotes. */
  function HexValue(s: string): nat
    requires forall k :: 0 <= k < |s| ==> IsHexDigit(s[k])
  {
    if s == [] then 0 else 16 * HexValue(s[..|s| - 1]) + HexDigitValue(s[|s| - 1])
  }

  /** Reading back `w` hex digits of `n` gives `n`. */
  lemma {:induction false} HexDigitsRoundTrip(n: nat, w: nat)
    requires n < Pow16(w)
    ensures HexValue(HexDigits(n, w)) == n
  {
    if w > 0 {
      HexDigitsRoundTrip(n / 16, w - 1);
      var r := HexDigits(n, w);
      assert r[..|r| - 1] == HexDigits(n / 16, w - 1);
      HexDigitValueOf(n % 16);
      assert HexValue(r) == 16 * HexValue(HexDigits(n / 16, w - 1)) + n % 16;
    }
  }

  lemma HexDigitValueOf(d: nat)
    requires d < 16
    ensures IsHexDigit(HexDigit(d)) && HexDigitValue(HexDigit(d)) == d
  {
  }

  /** The characters `str.isprintable` rejects and `repr` therefore escapes:
      the controls (Cc), every separator but the space (Zs, Zl, Zp), the
      format characters (Cf, as of Unicode 15), the private-use areas (Co)
      and the noncharacters. Surrogates are not `char`s. */
  predicate NonPrintable(c: char) {
    || c < ' ' || ('\U{7f}' <= c <= '\U{a0}') || c == '\U{ad}'
    || ('\U{600}' <= c <= '\U{605}') || c == '\U{61c}' || c == '\U{6dd}' || c == '\U{70f}'
    || ('\U{890}' <= c <= '\U{891}') || c == '\U{8e2}' || c == '\U{1680}' || c == '\U{180e}'
    || ('\U{2000}' <= c <= '\U{200f}') || ('\U{2028}' <= c <= '\U{202f}') || ('\U{205f}' <= c <= '\U{2064}')
    || ('\U{2066}' <= c <= '\U{206f}') || c == '\U{3000}' || ('\U{e000}' <= c <= '\U{f8ff}')
    || ('\U{fdd0}' <= c <= '\U{fdef}') || c == '\U{feff}' || ('\U{fff9}' <= c <= '\U{fffb}')
    || c == '\U{110bd}' || c == '\U{110cd}' || ('\U{13430}' <= c <= '\U{1343f}')
    || ('\U{1bca0}' <= c <= '\U{1bca3}') || ('\U{1d173}' <= c <= '\U{1d17a}')
    || c == '\U{e0001}' || ('\U{e0020}' <= c <= '\U{e007f}') || ('\U{f0000}' <= c)
    || c as int % 0x1_0000 >= 0xfffe
  }

  /** The escape `repr` writes for a character it does not print: `\xhh`
      up to U+00FF, `\uhhhh` up to U+FFFF, `\Uhhhhhhhh` above. */
  function HexEscape(c: char): string {
    if c as int < 0x100 then "\\x" + HexDigits(c as int, 2)
    else if c as int < 0x1_0000 then "\\u" + HexDigits(c as int, 4)
    else "\\U" + HexDigits(c as int, 8)
  }

  /** One character of a `repr`, inside quotes `q`. */
  function ReprChar(c: char, q: char): string {
    if c == '\\' then "\\\\"
    else if c == q then ['\\', q]
    else if c == '\t' then "\\t"
    else if c == '\n' then "\\n"
    else if c == '\r' then "\\r"
    else if NonPrintable(c) then HexEscape(c)
    else [c]
  }

  function ReprBody(s: string, q: char): string {
    if s == [] then "" else ReprChar(s[0], q) + ReprBody(s[1..], q)
  }

  /** The quote `repr` chooses: single, unless `s` holds a single quote and no double quote. */
  function ReprQuote(s: string): char {
    if '\'' in s && '"' !in s then '"' else '\''
  }

  /** `repr(s)`. Its characters are all printable, and undoing the escapes
      between the quotes gives back `s`. */
  function PyRepr(s: string): (r: string)
    ensures |r| >= 2 && r[0] == r[|r| - 1] == ReprQuote(s)
    ensures forall k :: 0 <= k < |r| ==> !NonPrintable(r[k])
    ensures Unescape(r[1..|r| - 1]) == s
  {
    var q := ReprQuote(s);
    ReprBodyPrintable(s, q);
    ReprBodyReadsBack(s, q);
    Quoted(q, ReprBody(s, q));
    [q] + ReprBody(s, q) + [q]
  }

  /** A printable body between printable quotes is printable, and sits between them. */
  lemma Quoted(q: char, body: string)
    requires q == '\'' || q == '"'
    requires forall k :: 0 <= k < |body| ==> !NonPrintable(body[k])
    ensures ([q] + body + [q])[1..|body| + 1] == body
    ensures forall k :: 0 <= k < |body| + 2 ==> !NonPrintable(([q] + body + [q])[k])
  {
    var r := [q] + body + [q];
    assert forall k :: 1 <= k < |body| + 1 ==> r[k] == body[k - 1];
  }

  /** The character a `\` escape of one letter stands for. */
  function ShortEscape(e: char): char {
    if e == 't' then '\t' else if e == 'n' then '\n' else if e == 'r' then '\r' else e
  }

  /** The width of the hex escape a letter starts, or 0. */
  function EscapeWidth(e: char): nat {
    if e == 'x' then 2 else if e == 'u' then 4 else if e == 'U' then 8 else 0
  }

  predicate IsScalar(v: nat) { v < 0xd800 || 0xe000 <= v < 0x11_0000 }

  predicate HexRun(t: string, w: nat) {
    w <= |t| && forall k :: 0 <= k < w ==> IsHexDigit(t[k])
  }

  /** Python's reading of the escapes in a string literal body, as far as
      `repr` writes them: `\\`, `\'`, `\"`, `\t`, `\n`, `\r`, `\x`, `\u`
      and `\U`. Anything else is kept as it is. */
  function Unescape(t: string): string
    decreases |t|
  {
    if t == [] then ""
    else if t[0] != '\\' || |t| == 1 then [t[0]] + Unescape(t[1..])
    else
      var w := EscapeWidth(t[1]);
      if w == 0 then [ShortEscape(t[1])] + Unescape(t[2..])
      else if HexRun(t[2..], w) && IsScalar(HexValue(t[2..2 + w])) then
        [HexValue(t[2..2 + w]) as char] + Unescape(t[2 + w..])
      else [t[0]] + Unescape(t[1..])
  }

  /** Every character of an escaped body is printable, provided the quote is. */
  lemma {:induction false} ReprBodyPrintable(s: string, q: char)
    requires q == '\'' || q == '"'
    ensures forall k :: 0 <= k < |ReprBody(s, q)| ==> !NonPrintable(ReprBody(s, q)[k])
  {
    if s != [] {
      ReprBodyPrintable(s[1..], q);
      ReprCharPrintable(s[0], q);
    }
  }

  lemma ReprCharPrintable(c: char, q: char)
    requires q == '\'' || q == '"'
    ensures forall k :: 0 <= k < |ReprChar(c, q)| ==> !NonPrintable(ReprChar(c, q)[k])
  {
    if c != '\\' && c != q && c != '\t' && c != '\n' && c != '\r' && NonPrintable(c) {
      var r := HexEscape(c);
      assert forall k :: 2 <= k < |r| ==> IsHexDigit(r[k]);
    }
  }

  /** Undoing the escapes of a body gives back the string. */
  lemma {:induction false} ReprBodyReadsBack(s: string, q: char)
    requires q == '\'' || q == '"'
    ensures Unescape(ReprBody(s, q)) == s
  {
    if s != [] {
      ReprBodyReadsBack(s[1..], q);
      ReprCharReadsBack(s[0], q, ReprBody(s[1..], q));
      assert s == [s[0]] + s[1..];
    }
  }

  /** Undoing the escape of one character consumes exactly that escape. */
  lemma ReprCharReadsBack(c: char, q: char, t: string)
    requires q == '\'' || q == '"'
    ensures Unescape(ReprChar(c, q) + t) == [c] + Unescape(t)
  {
    var r := ReprChar(c, q);
    if c != '\\' && c != q && c != '\t' && c != '\n' && c != '\r' && NonPrintable(c) {
      HexEscapeReadsBack(c, t);
    } else if |r| == 1 {
      assert (r + t)[1..] == t;
    } else {
      assert |r| == 2 && (r + t)[2..] == t;
    }
  }

  lemma HexEscapeReadsBack(c: char, t: string)
    ensures Unescape(HexEscape(c) + t) == [c] + Unescape(t)
  {
    var v := c as int;
    var w := if v < 0x100 then 2 else if v < 0x1_0000 then 4 else 8;
    assert Pow16(2) == 0x100 && Pow16(4) == 0x1_0000 && Pow16(8) == 0x1_0000_0000;
    var h := HexDigits(v, w);
    HexDigitsRoundTrip(v, w);
    var u := HexEscape(c) + t;
    assert u[2..2 + w] == h && u[2 + w..] == t;
    assert EscapeWidth(u[1]) == w;
  }

  /** `str(items)` for a list of strings: `['a', 'b']`. */
  function PyListRepr(items: seq<string>): string {
    "[" + Join(", ", seq(|items|, i requires 0 <= i < |items| => PyRepr(items[i]))) + "]"
  }
}
