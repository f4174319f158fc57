/** Values and Python string operations shared by every other module.
    Each function here is the Python built-in it is named after, restricted
    to what the application uses: `str.isspace`, `str.lower` (ASCII letters
    only), `str.strip`, `str.split(sep)`, `str.split()`, `sep.join`,
    `str.startswith`/`endswith`, `str.find`, `s[:stop]` and `str(int)`. */
module Common {

  datatype Option<+T> = None | Some(value: T)

  datatype Result<+T, +E> = Ok(value: T) | Err(error: E)

  // ---------------------------------------------------------------------------
  // Characters

  /** `c.isspace()`: the characters Python (and the `\s` class of `re`) treats as whitespace. */
  predicate IsSpace(c: char) {
    c == ' ' || ('\t' <= c <= '\r') || ('\U{1C}' <= c <= '\U{1F}')
    || c == '\U{85}' || c == '\U{A0}' || c == '\U{1680}'
    || ('\U{2000}' <= c <= '\U{200A}') || c == '\U{2028}' || c == '\U{2029}'
    || c == '\U{202F}' || c == '\U{205F}' || c == '\U{3000}'
  }

  /** An ASCII decimal digit, which is what `\d` and `int()` are modelled on. */
  predicate IsDigit(c: char) {
    '0' <= c <= '9'
  }

  function LowerChar(c: char): (r: char)
    ensures 'A' <= c <= 'Z' ==> 'a' <= r <= 'z'
    ensures !('A' <= c <= 'Z') ==> r == c
  {
    if 'A' <= c <= 'Z' then (c as int + 32) as char else c
  }

  /** `s.lower()` on ASCII letters; every other character is kept. */
  function Lower(s: string): (r: string)
    ensures |r| == |s|
    ensures forall i :: 0 <= i < |s| ==> r[i] == LowerChar(s[i])
  {
    if s == [] then [] else [LowerChar(s[0])] + Lower(s[1..])
  }

  lemma {:induction false} LowerAppend(a: string, b: string)
    ensures Lower(a + b) == Lower(a) + Lower(b)
  {
    assert |Lower(a + b)| == |Lower(a) + Lower(b)|;
    forall i | 0 <= i < |a + b|
      ensures Lower(a + b)[i] == (Lower(a) + Lower(b))[i]
    {
      if i < |a| {
        assert (a + b)[i] == a[i];
      } else {
        assert (a + b)[i] == b[i - |a|];
      }
    }
  }

  // ---------------------------------------------------------------------------
  // Prefixes, suffixes and occurrences

  predicate StartsWith(s: string, p: string) {
    |p| <= |s| && s[..|p|] == p
  }

  predicate EndsWith(s: string, p: string) {
    |p| <= |s| && s[|s| - |p|..] == p
  }

  /** `s.endswith(tuple(suffixes))`: true when some suffix of the tuple matches. */
  predicate EndsWithAny(s: string, suffixes: seq<string>) {
    exists k :: 0 <= k < |suffixes| && EndsWith(s, suffixes[k])
  }

  predicate OccursAt(s: string, p: string, i: int) {
    0 <= i && i + |p| <= |s| && s[i..i + |p|] == p
  }

  /** `p in s` for strings. */
  predicate Contains(s: string, p: string) {
    exists i | 0 <= i <= |s| :: OccursAt(s, p, i)
  }

  /** `s.find(p, from)`: the leftmost occurrence of `p` at or after `from`. */
  function Find(s: string, p: string, from: nat): (r: Option<nat>)
    decreases |s| - from
    ensures r.Some? ==> from <= r.value && OccursAt(s, p, r.value)
    ensures r.Some? ==> forall j :: from <= j < r.value ==> !OccursAt(s, p, j)
    ensures r.None? ==> forall j :: from <= j ==> !OccursAt(s, p, j)
  {
    if from + |p| > |s| then None
    else if s[from..from + |p|] == p then Some(from)
    else Find(s, p, from + 1)
  }

  /** An occurrence with none before it (from `from` on) is the one found. */
  lemma FindLeftmost(s: string, p: string, from: nat, a: nat)
    requires from <= a && OccursAt(s, p, a)
    requires forall j :: from <= j < a ==> !OccursAt(s, p, j)
    ensures Find(s, p, from) == Some(a)
  {
  }

  /** No occurrence can start where the first character of `p` is absent. */
  lemma NoOccurrenceIn(s: string, p: string, lo: nat, hi: nat)
    requires p != [] && hi <= |s|
    requires forall k :: lo <= k < hi ==> s[k] != p[0]
    ensures forall j :: lo <= j < hi ==> !OccursAt(s, p, j)
  {
    forall j | lo <= j < hi ensures !OccursAt(s, p, j) {
      if j + |p| <= |s| {
        assert s[j..j + |p|][0] == s[j];
      }
    }
  }

  lemma FindContains(s: string, p: string)
    ensures Find(s, p, 0).Some? <==> Contains(s, p)
  {
    if Contains(s, p) {
      var i :| OccursAt(s, p, i);
    }
  }

  /** `m.get(key, default)`, and `os.getenv(name, default)` over the environment map. */
  function Get<K, V>(m: map<K, V>, key: K, default: V): V {
    if key in m then m[key] else default
  }

  // ---------------------------------------------------------------------------
  // Slicing

  /** `s[:stop]` with Python's reading of a negative or oversized `stop`. */
  function PyPrefix<T>(s: seq<T>, stop: int): (r: seq<T>)
    ensures stop >= 0 ==> |r| == if stop < |s| then stop else |s|
    ensures stop < 0 ==> |r| == if |s| + stop > 0 then |s| + stop else 0
    ensures r <= s
  {
    if stop >= 0 then (if stop < |s| then s[..stop] else s)
    else if |s| + stop > 0 then s[..|s| + stop] else []
  }

  // ---------------------------------------------------------------------------
  // Stripping

  /** `s.lstrip()`: a suffix of `s` after the leading whitespace. */
  function StripLeft(s: string): (r: string)
    ensures r == [] || !IsSpace(r[0])
    ensures |r| <= |s| && r == s[|s| - |r|..]
    ensures forall j :: 0 <= j < |s| - |r| ==> IsSpace(s[j])
  {
    if s != [] && IsSpace(s[0]) then StripLeft(s[1..]) else s
  }

  /** `s.rstrip()`: a prefix of `s` before the trailing whitespace. */
  function StripRight(s: string): (r: string)
    ensures r == [] || !IsSpace(r[|r| - 1])
    ensures |r| <= |s| && r == s[..|r|]
    ensures forall j :: |r| <= j < |s| ==> IsSpace(s[j])
  {
    if s != [] && IsSpace(s[|s| - 1]) then
      var r := StripRight(s[..|s| - 1]);
      assert r == s[..|r|];
      r
    else s
  }

  /** `s.strip()`: removes leading and trailing whitespace. */
  function Strip(s: string): string {
    StripLeft(StripRight(s))
  }

  lemma StripUnchanged(s: string)
    requires s == [] || (!IsSpace(s[0]) && !IsSpace(s[|s| - 1]))
    ensures Strip(s) == s
  {
  }

  // ---------------------------------------------------------------------------
  // Splitting and joining

  /** `s.split(c)` for a one-character separator: every occurrence splits,
      empty pieces are kept, and the result is never empty. */
  function Split(s: string, c: char): (r: seq<string>)
    ensures |r| >= 1
  {
    if s == [] then [""]
    else
      var rest := Split(s[1..], c);
      if s[0] == c then [""] + rest else [[s[0]] + rest[0]] + rest[1..]
  }

  /** `c.join(parts)` for a one-character separator. */
  function Join(parts: seq<string>, c: char): string {
    if |parts| == 0 then ""
    else if |parts| == 1 then parts[0]
    else parts[0] + [c] + Join(parts[1..], c)
  }

  /** The last piece of `s.split(c)`, as in `key.split("/")[-1]`. */
  function LastPiece(s: string, c: char): string {
    var parts := Split(s, c);
    parts[|parts| - 1]
  }

  lemma {:induction false} SplitPiecesAvoidSeparator(s: string, c: char)
    ensures forall k :: 0 <= k < |Split(s, c)| ==> c !in Split(s, c)[k]
  {
    if s != [] {
      SplitPiecesAvoidSeparator(s[1..], c);
    }
  }

  lemma {:induction false} JoinSplit(s: string, c: char)
    ensures Join(Split(s, c), c) == s
  {
    if s != [] {
      var rest := Split(s[1..], c);
      JoinSplit(s[1..], c);
      if s[0] == c {
        assert Split(s, c) == [""] + rest;
        assert Split(s, c)[1..] == rest;
      } else {
        var r := Split(s, c);
        assert r == [[s[0]] + rest[0]] + rest[1..];
        if |rest| == 1 {
          assert r == [[s[0]] + rest[0]];
        } else {
          assert r[1..] == rest[1..];
          assert Join(rest, c) == rest[0] + [c] + Join(rest[1..], c);
        }
      }
    }
  }

  /** A separator-free string splits into itself alone. */
  lemma {:induction false} SplitWithoutSeparator(s: string, c: char)
    requires c !in s
    ensures Split(s, c) == [s]
  {
    if s != [] {
      SplitWithoutSeparator(s[1..], c);
      assert s == [s[0]] + s[1..];
    }
  }

  /** Splitting `a + [c] + b` where `a` has no separator peels `a` off first. */
  lemma {:induction false} SplitAfterFirst(a: string, c: char, b: string)
    requires c !in a
    ensures Split(a + [c] + b, c) == [a] + Split(b, c)
  {
    if a == [] {
      assert a + [c] + b == [c] + b;
      assert ([c] + b)[1..] == b;
    } else {
      assert (a + [c] + b)[1..] == a[1..] + [c] + b;
      SplitAfterFirst(a[1..], c, b);
      assert [a[0]] + a[1..] == a;
    }
  }

  /** Splitting `a + [c] + b` where `b` has no separator leaves `b` as the last piece. */
  lemma {:induction false} LastPieceAfterSeparator(a: string, c: char, b: string)
    requires c !in b
    ensures LastPiece(a + [c] + b, c) == b
  {
    if a == [] {
      assert a + [c] + b == [c] + b;
      assert ([c] + b)[1..] == b;
      SplitWithoutSeparator(b, c);
    } else {
      assert (a + [c] + b)[1..] == a[1..] + [c] + b;
      LastPieceAfterSeparator(a[1..], c, b);
      var rest := Split(a[1..] + [c] + b, c);
      assert |rest| >= 2 by {
        SplitMore(a[1..], c, b);
      }
    }
  }

  lemma {:induction false} SplitMore(a: string, c: char, b: string)
    ensures |Split(a + [c] + b, c)| >= 2
  {
    if a == [] {
      assert a + [c] + b == [c] + b;
      assert ([c] + b)[1..] == b;
    } else {
      assert (a + [c] + b)[1..] == a[1..] + [c] + b;
      SplitMore(a[1..], c, b);
    }
  }

  /** The pieces of `s.split()`: maximal runs of non-whitespace characters, in order. */
  function Words(s: string): (r: seq<string>)
    ensures forall k :: 0 <= k < |r| ==> r[k] != [] && forall j :: 0 <= j < |r[k]| ==> !IsSpace(r[k][j])
    decreases |s|
  {
    if s == [] then []
    else if IsSpace(s[0]) then Words(s[1..])
    else
      var t := Token(s);
      [t] + Words(s[|t|..])
  }

  /** The longest prefix of `s` without whitespace. */
  function Token(s: string): (r: string)
    ensures r <= s
    ensures forall j :: 0 <= j < |r| ==> !IsSpace(r[j])
    ensures |r| < |s| ==> IsSpace(s[|r|])
  {
    if s == [] || IsSpace(s[0]) then [] else [s[0]] + Token(s[1..])
  }

  // ---------------------------------------------------------------------------
  // Numbers as text

  function DigitChar(d: nat): (r: char)
    requires d < 10
    ensures IsDigit(r)
  {
    "0123456789"[d]
  }

  /** `str(n)` for a natural number. */
  function NatToString(n: nat): (r: string)
    ensures |r| >= 1
    ensures forall i :: 0 <= i < |r| ==> IsDigit(r[i])
  {
    if n < 10 then [DigitChar(n)] else NatToString(n / 10) + [DigitChar(n % 10)]
  }

  /** `str(n)` for an integer. */
  function IntToString(n: int): (r: string)
    ensures |r| >= 1
    ensures forall i :: 0 <= i < |r| ==> IsDigit(r[i]) || r[i] == '-'
  {
    if n < 0 then "-" + NatToString(-n) else NatToString(n)
  }

  /** `int(ds)` for a run of ASCII digits. */
  function DigitsValue(ds: string): nat
    requires forall i :: 0 <= i < |ds| ==> IsDigit(ds[i])
  {
    if ds == [] then 0
    else
      var last := ds[|ds| - 1];
      assert IsDigit(last);
      DigitsValue(ds[..|ds| - 1]) * 10 + (last as int - '0' as int)
  }

  /** Reading back the digits of `str(n)` gives `n`. */
  lemma {:induction false} DigitsValueOfNat(n: nat)
    ensures DigitsValue(NatToString(n)) == n
  {
    if n >= 10 {
      var s := NatToString(n);
      assert s[..|s| - 1] == NatToString(n / 10);
      DigitsValueOfNat(n / 10);
    } else {
      assert NatToString(n) == ["0123456789"[n]];
    }
  }

  /** The longest prefix of `s` made of digits. */
  function DigitRun(s: string): (r: string)
    ensures r <= s
    ensures forall j :: 0 <= j < |r| ==> IsDigit(r[j])
    ensures |r| < |s| ==> !IsDigit(s[|r|])
  {
    if s == [] || !IsDigit(s[0]) then [] else [s[0]] + DigitRun(s[1..])
  }
}
