/**
 kernel/string.c and the memory loops of kernel/memory/mem.c. A C string is a
 NUL-terminated stretch of an array.
 */
module CStrings {
  import opened CTypes
  import opened Numerals

  /** A NUL can be found in s at or after p. */
  ghost predicate Terminated(s: seq<char>, p: nat) {
    exists k :: p <= k < |s| && s[k] == '\0'
  }

  /** The C string that starts at p. */
  ghost function StringAt(s: seq<char>, p: nat): (r: string)
    requires p <= |s|
    ensures p + |r| <= |s| && r == s[p..p + |r|] && '\0' !in r
    ensures p + |r| < |s| ==> s[p + |r|] == '\0'
    decreases |s| - p
  {
    if p == |s| || s[p] == '\0' then "" else [s[p]] + StringAt(s, p + 1)
  }

  lemma {:induction false} StringAtEnds(s: seq<char>, p: nat)
    requires p <= |s| && Terminated(s, p)
    ensures p + |StringAt(s, p)| < |s|
    decreases |s| - p
  {
    if s[p] != '\0' {
      StringAtEnds(s, p + 1);
    }
  }

  /** The string at p is the NUL-free r when r, then a NUL, stand there. */
  lemma {:induction false} StringAtIs(s: seq<char>, p: nat, r: string)
    requires p + |r| < |s| && s[p..p + |r|] == r && '\0' !in r && s[p + |r|] == '\0'
    ensures StringAt(s, p) == r && Terminated(s, p)
    decreases |r|
  {
    if r != "" {
      assert s[p] == r[0];
      assert s[p + 1..p + |r|] == r[1..];
      StringAtIs(s, p + 1, r[1..]);
    }
  }

  lemma {:induction false} StringAtSuffix(s: seq<char>, p: nat, k: nat)
    requires p <= |s| && Terminated(s, p) && k <= |StringAt(s, p)|
    ensures p + k < |s| && Terminated(s, p + k) && StringAt(s, p + k) == StringAt(s, p)[k..]
    decreases k
  {
    if k > 0 {
      StringAtSuffix(s, p + 1, k - 1);
    }
  }

  method Strlen(s: array<char>, p: nat) returns (n: nat)
    requires p <= s.Length && Terminated(s[..], p)
    ensures n == |StringAt(s[..], p)|
  {
    StringAtEnds(s[..], p);
    n := 0;
    while s[p + n] != '\0'
      invariant n <= |StringAt(s[..], p)|
      decreases |StringAt(s[..], p)| - n
    {
      n := n + 1;
    }
  }

  /** The k bytes at p are the first k of t. */
  ghost predicate Agrees(s: seq<char>, p: nat, t: string, k: nat) {
    k <= |t| && p + k <= |s| && s[p..p + k] == t[..k]
  }

  lemma AgreesStep(s: seq<char>, p: nat, t: string, k: nat)
    requires Agrees(s, p, t, k) && k < |t| && p + k < |s|
    ensures Agrees(s, p, t, k + 1) <==> s[p + k] == t[k]
    ensures s[p + k] != t[k] ==> forall len :: len > k ==> !Agrees(s, p, t, len)
  {
    assert s[p..p + k + 1] == s[p..p + k] + [s[p + k]];
    assert t[..k + 1] == t[..k] + [t[k]];
    forall len | len > k && Agrees(s, p, t, len)
      ensures s[p + k] == t[k]
    {
      assert s[p..p + len][k] == t[..len][k];
    }
  }

  /**
   Compares up to len bytes and stops at the first mismatch: it reads both
   ranges only as far as they agree, and not at all when they are the same or
   len is negative.
   */
  method Memcmp(s: array<char>, p: nat, t: array<char>, q: nat, len: int) returns (r: int)
    requires p <= s.Length && q <= t.Length
    requires s != t || p != q ==>
               forall k: nat :: k < len && Agrees(s[..], p, t[q..], k) ==> p + k < s.Length && q + k < t.Length
    ensures r == 0 <==> len <= 0 || (s == t && p == q) || Agrees(s[..], p, t[q..], len)
    ensures r != 0 ==> exists k: nat :: k < len && Agrees(s[..], p, t[q..], k) && p + k < s.Length && q + k < t.Length
                                        && s[p + k] != t[q + k] && r == if s[p + k] > t[q + k] then 1 else -1
  {
    if s == t && p == q {
      return 0;
    }
    var rest, k := len, 0;
    while rest > 0
      invariant 0 <= k <= Max(len, 0) && rest == len - k && Agrees(s[..], p, t[q..], k)
    {
      AgreesStep(s[..], p, t[q..], k);
      if s[p + k] != t[q + k] {
        return if s[p + k] > t[q + k] then 1 else -1;
      }
      rest := rest - 1;
      k := k + 1;
    }
    return 0;
  }

  /** The needle occurs in h at k. */
  predicate OccursAt(h: string, k: nat, needle: string) {
    k + |needle| <= |h| && h[k..k + |needle|] == needle
  }

  /** Agreement with a NUL-free needle ends at the latest at the haystack's NUL. */
  lemma WithinString(s: seq<char>, p: nat, needle: CString)
    requires p <= |s| && Terminated(s, p)
    ensures forall k: nat :: k < |needle| && Agrees(s, p, needle, k) ==> p + k < |s|
    ensures Agrees(s, p, needle, |needle|) <==> OccursAt(StringAt(s, p), 0, needle)
  {
    StringAtEnds(s, p);
    var n := |StringAt(s, p)|;
    forall k: nat | n < k <= |needle|
      ensures !Agrees(s, p, needle, k)
    {
      if p + k <= |s| {
        assert s[p..p + k][n] == '\0';
        assert needle[..k][n] in needle;
      }
    }
    assert needle[..|needle|] == needle;
  }

  /** Instead of the string at q, the comparison may look at the memory there. */
  lemma AgreesWithString(s: seq<char>, p: nat, t: seq<char>, q: nat, k: nat)
    requires q <= |t| && Terminated(t, q) && k <= |StringAt(t, q)|
    ensures q + k < |t|
    ensures Agrees(s, p, t[q..], k) <==> Agrees(s, p, StringAt(t, q), k)
  {
    StringAtEnds(t, q);
    assert t[q..][..k] == StringAt(t, q)[..k];
  }

  /** A string agrees with itself. */
  lemma AgreesWithItself(s: seq<char>, p: nat)
    requires p <= |s| && Terminated(s, p)
    ensures Agrees(s, p, StringAt(s, p), |StringAt(s, p)|)
  {
    assert StringAt(s, p)[..|StringAt(s, p)|] == StringAt(s, p);
  }

  /** memcmp against the whole needle at q tells whether it stands at p. */
  method Matches(s: array<char>, p: nat, t: array<char>, q: nat, size: nat) returns (c: int)
    requires p <= s.Length && q <= t.Length && Terminated(s[..], p) && Terminated(t[..], q)
    requires size == |StringAt(t[..], q)|
    ensures c == 0 <==> Agrees(s[..], p, StringAt(t[..], q), size)
  {
    hide StringAt, Agrees, Terminated;
    ghost var needle := StringAt(t[..], q);
    forall k: nat | k <= size
      ensures q + k < t.Length && (Agrees(s[..], p, t[q..], k) <==> Agrees(s[..], p, needle, k))
    {
      AgreesWithString(s[..], p, t[..], q, k);
      assert t[..][q..] == t[q..];
    }
    WithinString(s[..], p, needle);
    AgreesWithItself(s[..], p);
    AgreesWithNothing(s[..], p, needle);
    c := Memcmp(s, p, t, q, size);
  }

  lemma AgreesWithNothing(s: seq<char>, p: nat, t: string)
    requires p <= |s|
    ensures Agrees(s, p, t, 0)
  {
  }

  /** The address of the first occurrence of the string at needle in the string at start, or none. */
  method Strstr(s: array<char>, start: nat, t: array<char>, needle: nat) returns (r: Option<nat>)
    requires start <= s.Length && Terminated(s[..], start) && needle <= t.Length && Terminated(t[..], needle)
    ensures r.Some? ==> start <= r.value
    ensures StrstrResult(StringAt(s[..], start), StringAt(t[..], needle), if r.Some? then Some(r.value - start) else None)
  {
    hide StringAt, Agrees, StrstrResult, Searching, Terminated;
    ghost var text, sought := s[..], StringAt(t[..], needle);
    SearchStart(text, start, sought);
    var size := Strlen(t, needle);
    var p := start;
    while s[p] != '\0'
      invariant start <= p < s.Length && Searching(text, start, p, sought)
      decreases s.Length - p
    {
      SearchReads(text, start, p, sought);
      var c := Matches(s, p, t, needle, size);
      SearchStep(text, start, p, sought);
      if c == 0 {
        return Some(p);
      }
      p := p + 1;
    }
    SearchEnd(text, start, p, sought);
    return None;
  }

  /** Nothing was found between start and p, and the string goes on at p. */
  ghost predicate Searching(s: seq<char>, start: nat, p: nat, needle: string) {
    && start <= p < |s| && Terminated(s, p)
    && var h := StringAt(s, start);
       && p - start <= |h| && StringAt(s, p) == h[p - start..]
       && forall k :: 0 <= k < p - start ==> !OccursAt(h, k, needle)
  }

  lemma SearchStart(s: seq<char>, start: nat, needle: string)
    requires start <= |s| && Terminated(s, start)
    ensures start < |s| && Searching(s, start, start, needle)
  {
    TerminatedHere(s, start);
    assert StringAt(s, start)[0..] == StringAt(s, start);
  }

  lemma SearchReads(s: seq<char>, start: nat, p: nat, needle: CString)
    requires Searching(s, start, p, needle)
    ensures p <= |s| && Terminated(s, p)
  {
  }

  lemma SearchStep(s: seq<char>, start: nat, p: nat, needle: CString)
    requires Searching(s, start, p, needle) && s[p] != '\0'
    ensures if Agrees(s, p, needle, |needle|) then StrstrResult(StringAt(s, start), needle, Some(p - start))
            else p + 1 < |s| && Searching(s, start, p + 1, needle)
  {
    hide StringAt, Agrees, Terminated, OccursAt;
    TerminatedHere(s, p);
    Suffix(StringAt(s, start), p - start, needle);
    WithinString(s, p, needle);
  }

  lemma SearchEnd(s: seq<char>, start: nat, p: nat, needle: CString)
    requires Searching(s, start, p, needle) && s[p] == '\0'
    ensures StrstrResult(StringAt(s, start), needle, None)
  {
    hide StringAt, Terminated, OccursAt;
    TerminatedHere(s, p);
  }

  lemma TerminatedHere(s: seq<char>, p: nat)
    requires p <= |s| && Terminated(s, p)
    ensures p < |s|
    ensures s[p] != '\0' ==> p + 1 < |s| && Terminated(s, p + 1) && StringAt(s, p) == [s[p]] + StringAt(s, p + 1)
    ensures s[p] == '\0' ==> StringAt(s, p) == ""
  {
  }

  lemma Suffix(h: string, k: nat, needle: string)
    requires k <= |h|
    ensures OccursAt(h[k..], 0, needle) <==> OccursAt(h, k, needle)
  {
    if k + |needle| <= |h| {
      assert h[k..][0..|needle|] == h[k..k + |needle|];
    }
  }

  /**
   What ISO C asks of strstr: the first occurrence, where the empty needle
   also occurs at the end of the haystack.
   */
  ghost predicate FirstOccurrence(h: string, needle: string, r: Option<nat>) {
    match r
    case Some(k) => k <= |h| && OccursAt(h, k, needle) && forall j :: 0 <= j < k ==> !OccursAt(h, j, needle)
    case None => forall j :: 0 <= j <= |h| ==> !OccursAt(h, j, needle)
  }

  /** The result of this strstr, relative to the start of the haystack. */
  ghost predicate StrstrResult(h: string, needle: string, r: Option<nat>) {
    match r
    case Some(k) => k < |h| && OccursAt(h, k, needle) && forall j :: 0 <= j < k ==> !OccursAt(h, j, needle)
    case None => forall j :: 0 <= j < |h| ==> !OccursAt(h, j, needle)
  }

  /** It is what ISO C asks for, except that the empty string is not found in itself. */
  lemma StrstrIsStandard(h: string, needle: string, r: Option<nat>)
    requires StrstrResult(h, needle, r)
    ensures FirstOccurrence(h, needle, r) <==> h != "" || needle != ""
  {
    if h == "" && needle == "" {
      assert OccursAt(h, 0, needle);
    } else if h != "" && needle == "" {
      assert OccursAt(h, 0, needle);
    }
  }

  /** The number s denotes to atoi, in wrapping 32-bit arithmetic. */
  ghost function AtoiValue(s: string): int32 {
    Int32(Value(Offsets(s), 10))
  }

  lemma AtoiStep(s: string, c: char)
    ensures AtoiValue(s + [c]) == Int32(AtoiValue(s) * 10 + SignedChar(c) - '0' as int)
  {
    var all := Offsets(s + [c]);
    assert all[..|all| - 1] == Offsets(s);
    var v, d := Value(Offsets(s), 10), SignedChar(c) - '0' as int;
    var half: int := 0x8000_0000;
    assert Value(all, 10) == v * 10 + d;
    var low := (v + half) % TWO32;
    assert low == AtoiValue(s) + half;
    ModHorner(v + half, TWO32, 10, d - 9 * half);
    assert (v + half) * 10 + (d - 9 * half) == v * 10 + d + half;
    assert low * 10 + (d - 9 * half) == AtoiValue(s) * 10 + d + half;
  }

  /** Bytes from 0x80 on are negative characters. */
  lemma CharacterValues(c: char)
    requires c as int < 0x100
    ensures AtoiValue([c]) == (if (c as int) < 0x80 then c as int else c as int - 0x100) - 0x30
  {
    var s := Offsets([c]);
    assert s[..0] == [] && Value(s[..0], 10) == 0;
    assert Value(s, 10) == s[0];
  }

  method Atoi(s: array<char>, p: nat) returns (res: int32)
    requires p <= s.Length && Terminated(s[..], p)
    ensures res == AtoiValue(StringAt(s[..], p))
  {
    ghost var text := StringAt(s[..], p);
    StringAtEnds(s[..], p);
    assert Offsets("") == [];
    assert AtoiValue("") == 0;
    hide AtoiValue, Int32;
    res := 0;
    var i := 0;
    while s[p + i] != '\0'
      invariant 0 <= i <= |text|
      invariant res == AtoiValue(text[..i])
      decreases |text| - i
    {
      AtoiStep(text[..i], text[i]);
      assert text[..i + 1] == text[..i] + [text[i]];
      res := Int32(res * 10 + SignedChar(s[p + i]) - '0' as int);
      i := i + 1;
    }
    assert text[..i] == text;
  }

  /** The byte-by-byte, ascending copy loop of memcpy. */
  method Memcpy<T>(dst: array<T>, d: nat, src: array<T>, s: nat, n: nat)
    requires d + n <= dst.Length && s + n <= src.Length
    requires dst == src ==> d <= s || s + n <= d
    modifies dst
    ensures dst[..] == old(dst[..d]) + old(src[s..s + n]) + old(dst[d + n..])
  {
    ghost var from, to := src[..], dst[..];
    var i := 0;
    while i < n
      invariant 0 <= i <= n
      invariant forall k :: d <= k < d + i ==> dst[k] == from[s + (k - d)]
      invariant forall k :: 0 <= k < dst.Length && !(d <= k < d + i) ==> dst[k] == to[k]
      invariant dst != src ==> src[..] == from
    {
      assert src[s + i] == from[s + i] by {
        assert dst == src ==> !(d <= s + i < d + i);
      }
      dst[d + i] := src[s + i];
      i := i + 1;
    }
    assert dst[..] == to[..d] + from[s..s + n] + to[d + n..];
  }

  /** The split of text at the first separator, or (text, "") without one. */
  ghost predicate IsSplit(text: string, split: char, a: string, b: string) {
    && split !in a
    && (if split in text then text == a + [split] + b else text == a && b == "")
  }

  /** Copies the string at p into p1 up to the separator; i is the index behind the terminator. */
  method SplitFirst(str: array<char>, p: nat, split: char, p1: array<char>) returns (i: nat)
    requires p <= str.Length && Terminated(str[..], p) && |StringAt(str[..], p)| < p1.Length && str != p1
    modifies p1
    ensures 1 <= i <= |StringAt(str[..], p)| + 1
    ensures var text := StringAt(str[..], p);
            && p1[..i] == text[..i - 1] + "\0" && split !in text[..i - 1]
            && (i - 1 < |text| ==> text[i - 1] == split)
  {
    hide StringAt, Terminated;
    ghost var memory := str[..];
    ghost var text := StringAt(memory, p);
    i := 0;
    var n := Strlen(str, p);
    while i < n && str[p + i] != split
      invariant i <= n == |text| && str[..] == memory
      invariant p1[..i] == text[..i] && split !in text[..i]
    {
      assert str[p + i] == memory[p + i] == text[i];
      ghost var done := p1[..i];
      p1[i] := str[p + i];
      assert p1[..i + 1] == done + [text[i]];
      assert text[..i + 1] == text[..i] + [text[i]];
      i := i + 1;
      n := Strlen(str, p);
    }
    i := i + 1;
    p1[i - 1] := '\0';
  }

  /** Copies the rest of the string at p, from index i on, into p2. */
  method SplitRest(str: array<char>, p: nat, first: nat, p2: array<char>)
    requires p <= str.Length && Terminated(str[..], p) && |StringAt(str[..], p)| < p2.Length && str != p2
    requires first <= |StringAt(str[..], p)| + 1
    modifies p2
    ensures var text := StringAt(str[..], p);
            var rest := text[Min(|text|, first)..];
            |rest| < p2.Length && p2[..|rest| + 1] == rest + "\0"
  {
    hide StringAt, Terminated;
    ghost var memory := str[..];
    ghost var text := StringAt(memory, p);
    ghost var rest := text[Min(|text|, first)..];
    var i, j := first, 0;
    var n := Strlen(str, p);
    while i < n
      invariant n == |text| && str[..] == memory
      invariant i == first + j && j <= |rest|
      invariant p2[..j] == rest[..j]
    {
      assert str[p + i] == text[i] == rest[j];
      p2[j] := str[p + i];
      i := i + 1;
      n := Strlen(str, p);
      j := j + 1;
    }
    j := j + 1;
    p2[j - 1] := '\0';
  }

  /** The two halves of a string of fewer than 128 characters. */
  method Strsplit(str: array<char>, p: nat, split: char) returns (a: array<char>, b: array<char>)
    requires p <= str.Length && Terminated(str[..], p) && |StringAt(str[..], p)| < 128
    ensures fresh(a) && fresh(b) && a.Length == b.Length == 128
    ensures Terminated(a[..], 0) && Terminated(b[..], 0)
    ensures IsSplit(StringAt(str[..], p), split, StringAt(a[..], 0), StringAt(b[..], 0))
  {
    hide StringAt, Terminated;
    ghost var text := StringAt(str[..], p);
    a, b := new char[128], new char[128];
    var i := SplitFirst(str, p, split, a);
    SplitRest(str, p, i, b);
    SplitParts(text, split, i);
    IsTerminated(a[..], text[..i - 1]);
    IsTerminated(b[..], text[Min(|text|, i)..]);
  }

  lemma SplitParts(text: CString, split: char, i: nat)
    requires 1 <= i <= |text| + 1 && split !in text[..i - 1] && (i - 1 < |text| ==> text[i - 1] == split)
    ensures IsSplit(text, split, text[..i - 1], text[Min(|text|, i)..])
    ensures '\0' !in text[..i - 1] && '\0' !in text[Min(|text|, i)..]
  {
    if i - 1 < |text| {
      assert text == text[..i - 1] + [split] + text[i..];
    } else {
      assert text[..i - 1] == text;
    }
  }

  lemma IsTerminated(s: seq<char>, r: string)
    requires |r| < |s| && s[..|r| + 1] == r + "\0" && '\0' !in r
    ensures StringAt(s, 0) == r && Terminated(s, 0)
  {
    assert s[0..|r|] == s[..|r| + 1][..|r|] == r;
    assert s[|r|] == s[..|r| + 1][|r|];
    StringAtIs(s, 0, r);
  }
}
