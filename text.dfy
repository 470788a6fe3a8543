/** The Python string operations the two scripts rely on: `str.strip`, `str.split` with an
    explicit one-character separator, `str.upper`/`str.lower`, and the `in` substring test. */
module Text {

  /** Characters for which Python's `str.isspace()` holds; `str.strip()` without an
      argument removes exactly these. */
  predicate IsSpace(c: char) {
    ('\t' <= c <= '\r') || ('\U{1C}' <= c <= ' ') || c == '\U{85}' || c == '\U{A0}' ||
    c == '\U{1680}' || ('\U{2000}' <= c <= '\U{200A}') || c == '\U{2028}' || c == '\U{2029}' ||
    c == '\U{202F}' || c == '\U{205F}' || c == '\U{3000}'
  }

  /** What a strip removes: whitespace (`s.strip()`) or one given character (`s.strip(c)`). */
  datatype CharClass = Whitespace | Only(c: char)

  predicate InClass(c: char, k: CharClass) {
    match k
    case Whitespace => IsSpace(c)
    case Only(d) => c == d
  }

  /** The first index at or after `lo` whose character is not in `k`, or `|s|`. */
  function SkipStart(s: string, lo: nat, k: CharClass): (i: nat)
    requires lo <= |s|
    ensures lo <= i <= |s|
    ensures forall j | lo <= j < i :: InClass(s[j], k)
    ensures i == |s| || !InClass(s[i], k)
    decreases |s| - lo
  {
    if lo < |s| && InClass(s[lo], k) then SkipStart(s, lo + 1, k) else lo
  }

  /** The index just past the last character of `s[lo..hi]` not in `k`, or `lo`. */
  function SkipEnd(s: string, lo: nat, hi: nat, k: CharClass): (j: nat)
    requires lo <= hi <= |s|
    ensures lo <= j <= hi
    ensures forall i | j <= i < hi :: InClass(s[i], k)
    ensures j == lo || !InClass(s[j - 1], k)
    decreases hi
  {
    if lo < hi && InClass(s[hi - 1], k) then SkipEnd(s, lo, hi - 1, k) else hi
  }

  /** `SkipStart` is the first index, from `lo` on, not in `k`. */
  lemma SkipStartIs(s: string, lo: nat, i: nat, k: CharClass)
    requires lo <= i <= |s|
    requires forall j | lo <= j < i :: InClass(s[j], k)
    requires i == |s| || !InClass(s[i], k)
    ensures SkipStart(s, lo, k) == i
  {
    var j := SkipStart(s, lo, k);
  }

  /** `SkipEnd` is the last index, down to `lo`, following a character not in `k`. */
  lemma SkipEndIs(s: string, lo: nat, hi: nat, j: nat, k: CharClass)
    requires lo <= j <= hi <= |s|
    requires forall i | j <= i < hi :: InClass(s[i], k)
    requires j == lo || !InClass(s[j - 1], k)
    ensures SkipEnd(s, lo, hi, k) == j
  {
    var e := SkipEnd(s, lo, hi, k);
  }

  /** `r` sits in `s` at offset `lo`, and every character of `s` around it is in `k`. */
  predicate Framed(s: string, lo: int, r: string, k: CharClass) {
    0 <= lo <= |s| - |r| && s[lo..lo + |r|] == r &&
    (forall i | 0 <= i < lo :: InClass(s[i], k)) &&
    (forall i | lo + |r| <= i < |s| :: InClass(s[i], k))
  }

  /** Python's `s.strip()` / `s.strip(c)`: the infix of `s` left after removing characters
      in `k` from both ends, which neither starts nor ends with such a character. */
  function Strip(s: string, k: CharClass): (r: string)
    ensures r == [] || (!InClass(r[0], k) && !InClass(r[|r| - 1], k))
  {
    var lo := SkipStart(s, 0, k);
    var hi := SkipEnd(s, lo, |s|, k);
    s[lo..hi]
  }

  /** What `Strip` removes is a run of characters in `k` on each side. */
  lemma StripFramed(s: string, k: CharClass)
    ensures Framed(s, SkipStart(s, 0, k), Strip(s, k), k)
  {
  }

  /** The text holds nothing but whitespace. */
  predicate IsBlank(s: string) {
    forall i | 0 <= i < |s| :: IsSpace(s[i])
  }

  /** Python's truth test `not s.strip()` holds exactly for blank texts. */
  lemma BlankIffStripEmpty(s: string)
    ensures IsBlank(s) <==> Strip(s, Whitespace) == []
  {
    var lo := SkipStart(s, 0, Whitespace);
    if !IsBlank(s) {
      var i :| 0 <= i < |s| && !IsSpace(s[i]);
      assert lo <= i;
      assert SkipEnd(s, lo, |s|, Whitespace) > i;
    }
  }

  /** Stripping removes exactly a surrounding run of stripped characters. */
  lemma StripWrapped(l: string, p: string, r: string, k: CharClass)
    requires forall i | 0 <= i < |l| :: InClass(l[i], k)
    requires forall i | 0 <= i < |r| :: InClass(r[i], k)
    requires p != [] && !InClass(p[0], k) && !InClass(p[|p| - 1], k)
    ensures Strip(l + p + r, k) == p
  {
    var s := l + p + r;
    var lo := |l|;
    var hi := |l| + |p|;
    assert s[lo] == p[0];
    assert s[hi - 1] == p[|p| - 1];
    assert forall i | 0 <= i < lo :: s[i] == l[i];
    assert forall i | hi <= i < |s| :: s[i] == r[i - hi];
    SkipStartIs(s, 0, lo, k);
    SkipEndIs(s, lo, |s|, hi, k);
    assert s[lo..hi] == p;
  }

  /** A text that neither starts nor ends with a stripped character is left as it is. */
  lemma StripUnchanged(s: string, k: CharClass)
    requires s != [] && !InClass(s[0], k) && !InClass(s[|s| - 1], k)
    ensures Strip(s, k) == s
  {
    StripWrapped([], s, [], k);
    assert [] + s + [] == s;
  }

  /** A character that is not stripped survives the strip. */
  lemma StripKeeps(s: string, c: char, k: CharClass)
    requires c in s && !InClass(c, k)
    ensures c in Strip(s, k)
  {
    var lo := SkipStart(s, 0, k);
    var hi := SkipEnd(s, lo, |s|, k);
    var i :| 0 <= i < |s| && s[i] == c;
    assert lo <= i < hi;
    assert s[lo..hi][i - lo] == c;
  }

  /** Index of the first `c` in `s`. */
  function IndexOf(s: string, c: char): (i: nat)
    requires c in s
    ensures i < |s| && s[i] == c && c !in s[..i]
  {
    if s[0] == c then 0
    else
      var j := IndexOf(s[1..], c);
      assert s[..j + 1] == [s[0]] + s[1..][..j];
      j + 1
  }

  lemma IndexOfUnique(s: string, c: char, i: nat)
    requires i < |s| && s[i] == c && c !in s[..i]
    ensures c in s && IndexOf(s, c) == i
  {
    assert s[i] in s;
    var j := IndexOf(s, c);
  }

  /** Index of the last `c` in `s` (Python's `s.rfind(c)` when `c` occurs). */
  function LastIndexOf(s: string, c: char): (i: nat)
    requires c in s
    ensures i < |s| && s[i] == c && c !in s[i + 1..]
  {
    if s[|s| - 1] == c then |s| - 1
    else
      var t := s[..|s| - 1];
      assert c in t by {
        var k :| 0 <= k < |s| && s[k] == c;
        assert t[k] == c;
      }
      var j := LastIndexOf(t, c);
      assert s[j + 1..] == t[j + 1..] + [s[|s| - 1]];
      j
  }

  lemma LastIndexOfUnique(s: string, c: char, i: nat)
    requires i < |s| && s[i] == c && c !in s[i + 1..]
    ensures c in s && LastIndexOf(s, c) == i
  {
    assert s[i] in s;
    var j := LastIndexOf(s, c);
  }

  /** Joins `parts` with `sep` between consecutive parts (Python's `sep.join(parts)`). */
  function Join(parts: seq<string>, sep: char): string {
    if |parts| == 0 then ""
    else if |parts| == 1 then parts[0]
    else parts[0] + [sep] + Join(parts[1..], sep)
  }

  /** Python's `s.split(sep)`: the pieces between separators, empty ones included; it
      undoes `Join` and never yields an empty list. */
  function Split(s: string, sep: char): (parts: seq<string>)
    ensures |parts| >= 1
    ensures forall p <- parts :: sep !in p
    ensures Join(parts, sep) == s
    decreases |s|
  {
    if sep !in s then [s]
    else
      var i := IndexOf(s, sep);
      var rest := Split(s[i + 1..], sep);
      assert s == s[..i] + [sep] + s[i + 1..];
      [s[..i]] + rest
  }

  /** Splitting a joined list gives the list back. */
  lemma {:induction false} SplitJoin(parts: seq<string>, sep: char)
    requires |parts| >= 1 && forall p <- parts :: sep !in p
    ensures Split(Join(parts, sep), sep) == parts
  {
    if |parts| > 1 {
      var s := Join(parts, sep);
      SplitJoin(parts[1..], sep);
      assert s == parts[0] + [sep] + Join(parts[1..], sep);
      assert s[..|parts[0]|] == parts[0];
      IndexOfUnique(s, sep, |parts[0]|);
      assert s[|parts[0]| + 1..] == Join(parts[1..], sep);
    }
  }

  /** Joining two non-empty lists joins their joins. */
  lemma {:induction false} JoinConcat(p: seq<string>, q: seq<string>, sep: char)
    requires |p| >= 1 && |q| >= 1
    ensures Join(p + q, sep) == Join(p, sep) + [sep] + Join(q, sep)
  {
    if |p| > 1 {
      JoinConcat(p[1..], q, sep);
      assert (p + q)[1..] == p[1..] + q;
    } else {
      assert (p + q)[1..] == q;
    }
  }

  /** Each part of a join occurs in the joined text. */
  lemma {:induction false} PartIsInfix(parts: seq<string>, sep: char, k: nat)
    requires k < |parts|
    ensures Contains(Join(parts, sep), parts[k])
  {
    var s := Join(parts, sep);
    if |parts| == 1 {
      assert OccursAt(s, parts[0], 0);
    } else {
      var t := Join(parts[1..], sep);
      var off := |parts[0]| + 1;
      assert s == parts[0] + [sep] + t;
      if k == 0 {
        assert s[..|parts[0]|] == parts[0];
        assert OccursAt(s, parts[0], 0);
      } else {
        PartIsInfix(parts[1..], sep, k - 1);
        assert parts[1..][k - 1] == parts[k];
        assert Contains(t, parts[k]);
        var lo :| 0 <= lo <= |t| - |parts[k]| && OccursAt(t, parts[k], lo);
        assert s[off..] == t;
        assert s[off + lo..off + lo + |parts[k]|] == t[lo..lo + |parts[k]|];
        assert OccursAt(s, parts[k], off + lo);
      }
    }
  }

  /** Concatenation regroups freely. */
  lemma ConcatAssoc<T>(a: seq<T>, b: seq<T>, c: seq<T>)
    ensures a + b + c == a + (b + c)
  {
  }

  /** A separator splits the text into the pieces on either side of it. */
  lemma SplitConcat(x: string, y: string, sep: char)
    ensures Split(x + [sep] + y, sep) == Split(x, sep) + Split(y, sep)
  {
    var p := Split(x, sep);
    var q := Split(y, sep);
    JoinConcat(p, q, sep);
    SplitJoin(p + q, sep);
  }

  function UpperChar(c: char): char {
    if 'a' <= c <= 'z' then (c as int - 32) as char else c
  }

  function LowerChar(c: char): char {
    if 'A' <= c <= 'Z' then (c as int + 32) as char else c
  }

  /** `s.upper()` on ASCII letters: no lower-case letter is left, and each character
      agrees with the original up to case. */
  function Upper(s: string): (u: string)
    ensures |u| == |s| && forall i | 0 <= i < |s| :: !('a' <= u[i] <= 'z') && LowerChar(u[i]) == LowerChar(s[i])
  {
    seq(|s|, i requires 0 <= i < |s| => UpperChar(s[i]))
  }

  /** `s.lower()` on ASCII letters: no upper-case letter is left, and each character
      agrees with the original up to case. */
  function Lower(s: string): (l: string)
    ensures |l| == |s| && forall i | 0 <= i < |s| :: !('A' <= l[i] <= 'Z') && UpperChar(l[i]) == UpperChar(s[i])
  {
    seq(|s|, i requires 0 <= i < |s| => LowerChar(s[i]))
  }

  /** `sub` occurs in `s` starting at index `i`. */
  predicate OccursAt(s: string, sub: string, i: int) {
    0 <= i <= |s| - |sub| && s[i..i + |sub|] == sub
  }

  /** Python's `sub in s`. */
  predicate Contains(s: string, sub: string) {
    exists i | 0 <= i <= |s| - |sub| :: OccursAt(s, sub, i)
  }

  /** An occurrence in an infix is an occurrence in the whole text. */
  lemma ContainsInInfix(s: string, lo: nat, hi: nat, sub: string)
    requires lo <= hi <= |s| && Contains(s[lo..hi], sub)
    ensures Contains(s, sub)
  {
    var t := s[lo..hi];
    var i :| 0 <= i <= |t| - |sub| && OccursAt(t, sub, i);
    var inS, inT := s[lo + i..lo + i + |sub|], t[i..i + |sub|];
    forall j | 0 <= j < |sub| ensures inS[j] == inT[j] {
      assert t[i + j] == s[lo + i + j];
    }
    assert inS == inT;
    assert OccursAt(s, sub, lo + i);
  }
}
