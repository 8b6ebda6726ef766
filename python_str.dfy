/** The few operations of Python's `str` that the assistant relies on:
    `find`, `in`, `replace`, `split`, `join`, `strip` and `lower`,
    each with the meaning CPython gives it, stated over `seq<char>`. */
module PyStr {

  datatype Option<T> = None | Some(value: T)

  /** `pat` occurs in `s` starting at index `i`. */
  predicate OccursAt(s: string, pat: string, i: int)
  {
    0 <= i && i + |pat| <= |s| && s[i..i + |pat|] == pat
  }

  /** `s.find(pat, start)`: the leftmost occurrence at or after `start`
      (`None` stands for Python's -1). */
  function FindFrom(s: string, pat: string, start: nat): (r: Option<nat>)
    ensures r.Some? ==> start <= r.value && OccursAt(s, pat, r.value)
    ensures r.Some? ==> forall j :: start <= j < r.value ==> !OccursAt(s, pat, j)
    ensures r.None? ==> forall j :: start <= j ==> !OccursAt(s, pat, j)
    decreases |s| - start
  {
    if start + |pat| > |s| then None
    else if OccursAt(s, pat, start) then Some(start)
    else FindFrom(s, pat, start + 1)
  }

  /** `s.find(pat)`. */
  function Find(s: string, pat: string): (r: Option<nat>)
  {
    FindFrom(s, pat, 0)
  }

  /** Python's `pat in s`. */
  predicate Contains(s: string, pat: string)
  {
    Find(s, pat).Some?
  }

  lemma ContainsIff(s: string, pat: string)
    ensures Contains(s, pat) <==> exists j :: OccursAt(s, pat, j)
  {
    if r :| OccursAt(s, pat, r) {
      assert FindFrom(s, pat, 0).Some?;
    }
  }

  /** A one-character pattern occurs exactly where that character stands. */
  lemma OccursAtChar(s: string, c: char, i: int)
    ensures OccursAt(s, [c], i) <==> 0 <= i < |s| && s[i] == c
  {
    if 0 <= i < |s| {
      assert s[i..i + 1] == [s[i]];
    }
  }

  /** The index of the first `c` in `s`, as `s.find(c)`, with the fact
      that no `c` stands before it. */
  lemma FindChar(s: string, c: char)
    ensures Find(s, [c]).Some? ==> Find(s, [c]).value < |s| && s[Find(s, [c]).value] == c
    ensures Find(s, [c]).Some? ==> forall j :: 0 <= j < Find(s, [c]).value ==> s[j] != c
    ensures Find(s, [c]).None? <==> c !in s
  {
    var r := Find(s, [c]);
    if r.Some? {
      OccursAtChar(s, c, r.value);
      forall j | 0 <= j < r.value ensures s[j] != c {
        OccursAtChar(s, c, j);
      }
    } else {
      forall j | 0 <= j < |s| ensures s[j] != c {
        OccursAtChar(s, c, j);
      }
    }
    if c in s {
      var j :| 0 <= j < |s| && s[j] == c;
      OccursAtChar(s, c, j);
    }
  }

  /** A `c` with no `c` before it is the one `s.find(c)` returns. */
  lemma FindCharAt(s: string, c: char, i: nat)
    requires i < |s| && s[i] == c && c !in s[..i]
    ensures Find(s, [c]) == Some(i)
  {
    FindChar(s, c);
  }

  /** `s.rfind(c)`: the index of the last `c` in `s`. */
  function RFind(s: string, c: char): (r: Option<nat>)
    ensures r.Some? ==> r.value < |s| && s[r.value] == c
    ensures r.Some? ==> forall j :: r.value < j < |s| ==> s[j] != c
    ensures r.None? <==> c !in s
  {
    if s == [] then None
    else if s[|s| - 1] == c then Some(|s| - 1)
    else RFind(s[..|s| - 1], c)
  }

  /** `s.replace(pat, rep)`: every non-overlapping occurrence, scanned left to right. */
  function Replace(s: string, pat: string, rep: string): string
    requires pat != []
    decreases |s|
  {
    match Find(s, pat)
    case None => s
    case Some(i) => s[..i] + rep + Replace(s[i + |pat|..], pat, rep)
  }

  /** `sep.join(parts)`. */
  function Join(parts: seq<string>, sep: string): string
  {
    if parts == [] then []
    else if |parts| == 1 then parts[0]
    else parts[0] + sep + Join(parts[1..], sep)
  }

  /** `s.split(sep)`: the pieces between consecutive non-overlapping occurrences. */
  function Split(s: string, sep: string): (r: seq<string>)
    requires sep != []
    ensures |r| >= 1
    ensures Contains(s, sep) <==> |r| >= 2
    ensures forall k :: 0 <= k < |r| ==> !Contains(r[k], sep)
    decreases |s|
  {
    match Find(s, sep)
    case None => [s]
    case Some(i) =>
      PrefixBeforeFind(s, sep, i);
      [s[..i]] + Split(s[i + |sep|..], sep)
  }

  /** The text before the first occurrence of `sep` does not contain `sep`. */
  lemma PrefixBeforeFind(s: string, sep: string, i: nat)
    requires sep != [] && Find(s, sep) == Some(i)
    ensures !Contains(s[..i], sep)
  {
    var p := s[..i];
    forall j | OccursAt(p, sep, j) ensures OccursAt(s, sep, j) && j < i {
      assert p[j..j + |sep|] == s[j..j + |sep|];
    }
    ContainsIff(p, sep);
  }

  /** The first piece of `s.split(sep)` is the text before the first `sep`. */
  lemma SplitHead(s: string, sep: string)
    requires sep != []
    ensures Find(s, sep).None? ==> Split(s, sep)[0] == s
    ensures Find(s, sep).Some? ==> Split(s, sep)[0] == s[..Find(s, sep).value]
    ensures Find(s, sep).Some? ==> Split(s, sep)[1] == Split(s[Find(s, sep).value + |sep|..], sep)[0]
  {
  }

  /** The first piece of `s.split(sep)` is a prefix of `s` without `sep`,
      ending at the end of `s` or where `sep` first occurs. */
  lemma SplitFirstPiece(s: string, sep: string)
    requires sep != []
    ensures var p := Split(s, sep)[0];
      && |p| <= |s| && p == s[..|p|] && !Contains(p, sep)
      && (|p| == |s| || OccursAt(s, sep, |p|))
  {
    SplitHead(s, sep);
  }

  /** `s.split(sep)[1].split(c)[0]`, where `sep` starts with `c`: the text
      after the first `sep` up to the next `c` or the end of `s`. */
  lemma SplitAfterFirst(s: string, sep: string, c: char)
    requires sep != [] && sep[0] == c && Contains(s, sep)
    ensures var rest := s[Find(s, sep).value + |sep|..];
      var piece := Split(Split(s, sep)[1], [c])[0];
      && |piece| <= |rest| && piece == rest[..|piece|] && c !in piece
      && (|piece| == |rest| || rest[|piece|] == c)
  {
    var rest := s[Find(s, sep).value + |sep|..];
    SplitHead(s, sep);
    var seg := Split(rest, sep)[0];
    SplitFirstPiece(rest, sep);
    SplitFirstPiece(seg, [c]);
    var piece := Split(seg, [c])[0];
    ContainsIff(piece, [c]);
    forall m | 0 <= m < |piece| ensures piece[m] != c {
      OccursAtChar(piece, c, m);
    }
    if |piece| < |seg| {
      OccursAtChar(seg, c, |piece|);
      assert rest[|piece|] == seg[|piece|];
    } else if |seg| < |rest| {
      assert rest[|seg|..|seg| + |sep|][0] == rest[|seg|];
    }
  }

  /** Splitting and joining back with the same separator gives back the string. */
  lemma {:induction false} JoinSplit(s: string, sep: string)
    requires sep != []
    ensures Join(Split(s, sep), sep) == s
    decreases |s|
  {
    match Find(s, sep)
    case None =>
    case Some(i) =>
      var rest := s[i + |sep|..];
      JoinSplit(rest, sep);
      assert Split(s, sep) == [s[..i]] + Split(rest, sep);
      assert OccursAt(s, sep, i);
      assert s == s[..i] + sep + rest;
  }

  /** `s.replace(a, b) == b.join(s.split(a))`. */
  lemma {:induction false} ReplaceIsJoinSplit(s: string, pat: string, rep: string)
    requires pat != []
    ensures Replace(s, pat, rep) == Join(Split(s, pat), rep)
    decreases |s|
  {
    match Find(s, pat)
    case None =>
    case Some(i) =>
      var rest := s[i + |pat|..];
      ReplaceIsJoinSplit(rest, pat, rep);
      assert Split(s, pat) == [s[..i]] + Split(rest, pat);
  }

  /** Replacing a character by another changes exactly the positions that held it. */
  lemma {:induction false} ReplaceChar(s: string, c: char, d: char)
    ensures |Replace(s, [c], [d])| == |s|
    ensures forall k :: 0 <= k < |s| ==> Replace(s, [c], [d])[k] == if s[k] == c then d else s[k]
    decreases |s|
  {
    FindChar(s, c);
    match Find(s, [c])
    case None =>
    case Some(i) =>
      var rest := s[i + 1..];
      ReplaceChar(rest, c, d);
      var r := Replace(s, [c], [d]);
      assert r == s[..i] + [d] + Replace(rest, [c], [d]);
      forall k | 0 <= k < |s| ensures r[k] == if s[k] == c then d else s[k] {
        if k > i {
          assert r[k] == Replace(rest, [c], [d])[k - i - 1];
          assert rest[k - i - 1] == s[k];
        }
      }
  }

  /** The characters of `s` other than `c`, in order. */
  function RemoveChar(s: string, c: char): (r: string)
    ensures c !in r
    ensures |r| <= |s|
  {
    if s == [] then []
    else (if s[0] == c then [] else [s[0]]) + RemoveChar(s[1..], c)
  }

  /** Removing a character keeps whitespace-only text whitespace-only. */
  lemma {:induction false} RemoveCharAllSpace(s: string, c: char)
    requires AllSpace(s)
    ensures AllSpace(RemoveChar(s, c))
  {
    if s != [] {
      RemoveCharAllSpace(s[1..], c);
    }
  }

  /** Replacing a character by nothing removes every occurrence of it and nothing else. */
  lemma {:induction false} ReplaceCharByNothing(s: string, c: char)
    ensures Replace(s, [c], []) == RemoveChar(s, c)
    decreases |s|
  {
    match Find(s, [c])
    case None =>
      FindChar(s, c);
      RemoveCharAbsent(s, c);
    case Some(i) =>
      FindChar(s, c);
      ReplaceCharByNothing(s[i + 1..], c);
      RemoveCharAtFirst(s, c, i);
  }

  /** Removing `c` from `s`, whose first `c` stands at `i`. */
  lemma RemoveCharAtFirst(s: string, c: char, i: nat)
    requires i < |s| && s[i] == c
    requires forall j :: 0 <= j < i ==> s[j] != c
    ensures RemoveChar(s, c) == s[..i] + RemoveChar(s[i + 1..], c)
  {
    assert s == s[..i] + s[i..];
    RemoveCharConcat(s[..i], s[i..], c);
    RemoveCharAbsent(s[..i], c);
    assert s[i..][1..] == s[i + 1..];
  }

  lemma {:induction false} RemoveCharAbsent(s: string, c: char)
    requires c !in s
    ensures RemoveChar(s, c) == s
  {
    if s != [] {
      RemoveCharAbsent(s[1..], c);
    }
  }

  lemma {:induction false} RemoveCharConcat(a: string, b: string, c: char)
    ensures RemoveChar(a + b, c) == RemoveChar(a, c) + RemoveChar(b, c)
  {
    if a == [] {
      assert a + b == b;
    } else {
      var h := if a[0] == c then [] else [a[0]];
      calc {
        RemoveChar(a + b, c);
        { assert (a + b)[0] == a[0] && (a + b)[1..] == a[1..] + b; }
        h + RemoveChar(a[1..] + b, c);
        { RemoveCharConcat(a[1..], b, c); }
        h + (RemoveChar(a[1..], c) + RemoveChar(b, c));
        (h + RemoveChar(a[1..], c)) + RemoveChar(b, c);
        RemoveChar(a, c) + RemoveChar(b, c);
      }
    }
  }

  /** Removing two characters, in either order, gives the same text. */
  lemma {:induction false} RemoveCharCommutes(s: string, a: char, b: char)
    ensures RemoveChar(RemoveChar(s, a), b) == RemoveChar(RemoveChar(s, b), a)
  {
    if s != [] {
      RemoveCharCommutes(s[1..], a, b);
      var h := if s[0] == a then [] else [s[0]];
      RemoveCharConcat(h, RemoveChar(s[1..], a), b);
      var g := if s[0] == b then [] else [s[0]];
      RemoveCharConcat(g, RemoveChar(s[1..], b), a);
    }
  }

  /** The characters Python's `str.isspace` accepts. */
  predicate IsSpace(c: char)
  {
    || c == ' ' || '\t' <= c <= '\r' || '\U{001C}' <= c <= '\U{001F}'
    || c == '\U{0085}' || c == '\U{00A0}' || c == '\U{1680}' || '\U{2000}' <= c <= '\U{200A}'
    || c == '\U{2028}' || c == '\U{2029}' || c == '\U{202F}' || c == '\U{205F}' || c == '\U{3000}'
  }

  predicate AllSpace(s: string)
  {
    forall k :: 0 <= k < |s| ==> IsSpace(s[k])
  }

  /** `s.lstrip()`: `s` without its leading whitespace. */
  function StripStart(s: string): (r: string)
    ensures |r| <= |s|
    ensures r != [] ==> !IsSpace(r[0]) && r[|r| - 1] == s[|s| - 1]
    decreases |s|
  {
    if s != [] && IsSpace(s[0]) then StripStart(s[1..]) else s
  }

  /** `s.rstrip()`: `s` without its trailing whitespace. */
  function StripEnd(s: string): (r: string)
    ensures |r| <= |s|
    ensures r != [] ==> !IsSpace(r[|r| - 1]) && r[0] == s[0]
    decreases |s|
  {
    if s != [] && IsSpace(s[|s| - 1]) then StripEnd(s[..|s| - 1]) else s
  }

  /** `s.strip()`: `s` without its leading and trailing whitespace. */
  function Strip(s: string): (r: string)
    ensures |r| <= |s|
    ensures r != [] ==> !IsSpace(r[0]) && !IsSpace(r[|r| - 1])
  {
    StripEnd(StripStart(s))
  }

  /** What `lstrip` cuts off is whitespace, and what it keeps is the rest of `s`. */
  lemma {:induction false} StripStartCuts(s: string)
    ensures var r := StripStart(s);
      s[|s| - |r|..] == r && AllSpace(s[..|s| - |r|])
    decreases |s|
  {
    if s != [] && IsSpace(s[0]) {
      StripStartCuts(s[1..]);
      var r := StripStart(s);
      var cut, rest := s[..|s| - |r|], s[1..][..|s| - 1 - |r|];
      forall k | 0 <= k < |cut| ensures IsSpace(cut[k]) {
        if k > 0 {
          assert cut[k] == rest[k - 1];
        }
      }
    }
  }

  /** What `rstrip` cuts off is whitespace, and what it keeps is the start of `s`. */
  lemma {:induction false} StripEndCuts(s: string)
    ensures var r := StripEnd(s);
      s[..|r|] == r && AllSpace(s[|r|..])
    decreases |s|
  {
    if s != [] && IsSpace(s[|s| - 1]) {
      var t := s[..|s| - 1];
      StripEndCuts(t);
      var r := StripEnd(s);
      assert s[..|r|] == t[..|r|];
      var cut, rest := s[|r|..], t[|r|..];
      forall k | 0 <= k < |cut| ensures IsSpace(cut[k]) {
        if k < |rest| {
          assert cut[k] == rest[k];
        }
      }
    }
  }

  /** Text strips to nothing exactly when it is all whitespace. */
  lemma StripEmpty(s: string)
    ensures Strip(s) == [] <==> AllSpace(s)
  {
    var t := StripStart(s);
    StripStartCuts(s);
    if t == [] {
      assert s[..|s|] == s;
    } else {
      StripEndCuts(t);
      assert s[|s| - |t|] == t[0];
    }
  }

  /** The stripped text is a slice of the input, and all that is cut off on
      either side is whitespace. */
  lemma StripIsSlice(s: string)
    ensures var r := Strip(s);
      exists i :: 0 <= i <= |s| - |r| && r == s[i..i + |r|] && AllSpace(s[..i]) && AllSpace(s[i + |r|..])
  {
    var i := |s| - |StripStart(s)|;
    StripCut(s, i);
  }

  lemma StripCut(s: string, i: nat)
    requires i == |s| - |StripStart(s)|
    ensures var r := Strip(s);
      i + |r| <= |s| && r == s[i..i + |r|] && AllSpace(s[..i]) && AllSpace(s[i + |r|..])
  {
    var t := StripStart(s);
    var r := StripEnd(t);
    StripStartCuts(s);
    StripEndCuts(t);
    assert s[i..i + |r|] == t[..|r|];
    assert s[i + |r|..] == t[|r|..];
  }

  /** Text that contains a word starting with a non-space character does
      not strip to nothing. */
  lemma ContainsNotBlank(s: string, w: string)
    requires w != [] && !IsSpace(w[0]) && Contains(s, w)
    ensures Strip(s) != []
  {
    ContainsIff(s, w);
    var j :| OccursAt(s, w, j);
    assert s[j] == s[j..j + |w|][0];
    StripEmpty(s);
  }

  /** Stripping twice is stripping once. */
  lemma StripIdempotent(s: string)
    ensures Strip(Strip(s)) == Strip(s)
  {
    var r := Strip(s);
    if r != [] {
      assert StripStart(r) == r;
    }
  }

  /** `c.lower()` on ASCII letters; every other character is left as it is. */
  function LowerChar(c: char): char
  {
    if 'A' <= c <= 'Z' then (c as int + 32) as char else c
  }

  /** `s.lower()`. */
  function Lower(s: string): (r: string)
    ensures |r| == |s|
  {
    seq(|s|, k requires 0 <= k < |s| => LowerChar(s[k]))
  }

  /** Lower-casing is idempotent and keeps every character that is not an upper-case letter. */
  lemma LowerProperties(s: string)
    ensures Lower(Lower(s)) == Lower(s)
    ensures forall k :: 0 <= k < |s| && !('A' <= s[k] <= 'Z') ==> Lower(s)[k] == s[k]
  {
  }

  /** Lower-casing and removing a non-letter commute. */
  lemma {:induction false} LowerRemoveChar(s: string, c: char)
    requires !('A' <= c <= 'Z') && !('a' <= c <= 'z')
    ensures Lower(RemoveChar(s, c)) == RemoveChar(Lower(s), c)
  {
    if s != [] {
      LowerRemoveChar(s[1..], c);
      var h := if s[0] == c then [] else [s[0]];
      LowerConcat(h, RemoveChar(s[1..], c));
      LowerConcat([s[0]], s[1..]);
      assert [s[0]] + s[1..] == s;
      assert Lower(s)[1..] == Lower(s[1..]);
    }
  }

  lemma LowerConcat(a: string, b: string)
    ensures Lower(a + b) == Lower(a) + Lower(b)
  {
    forall k | 0 <= k < |a| + |b| ensures Lower(a + b)[k] == (Lower(a) + Lower(b))[k] {
      if k < |a| { assert (a + b)[k] == a[k]; } else { assert (a + b)[k] == b[k - |a|]; }
    }
  }

  /** Lower-casing keeps whitespace-only text whitespace-only. */
  lemma LowerAllSpace(s: string)
    requires AllSpace(s)
    ensures AllSpace(Lower(s))
  {
    forall k | 0 <= k < |s| ensures IsSpace(Lower(s)[k]) {
      assert IsSpace(s[k]);
    }
  }

  /** How many times `c` occurs in `s`. */
  function Count(s: string, c: char): (n: nat)
    ensures n <= |s|
    ensures n == 0 <==> c !in s
  {
    if s == [] then 0 else (if s[0] == c then 1 else 0) + Count(s[1..], c)
  }

  lemma {:induction false} CountConcat(a: string, b: string, c: char)
    ensures Count(a + b, c) == Count(a, c) + Count(b, c)
  {
    if a == [] {
      assert a + b == b;
    } else {
      assert (a + b)[1..] == a[1..] + b;
      CountConcat(a[1..], b, c);
    }
  }
}
