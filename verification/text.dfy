/** The Python string operations the screening code relies on: `strip`, `lower`,
    `split`, `in` on strings, `", ".join`, slicing and integer formatting. */
module Text {

  /** Whitespace as `str.isspace` sees it, restricted to the ASCII range. */
  predicate IsSpace(c: char) {
    c == ' ' || c == '\t' || c == '\n' || c == '\r' || c == '\U{0B}' || c == '\U{0C}'
    || ('\U{1C}' <= c <= '\U{1F}')
  }

  predicate Blank(s: string) {
    forall i :: 0 <= i < |s| ==> IsSpace(s[i])
  }

  // ---------------------------------------------------------------- strip

  /** `s.lstrip()`: drops the leading whitespace and nothing else. */
  function TrimStart(s: string): (r: string)
    ensures |r| <= |s| && r == s[|s| - |r|..]
    ensures r == [] || !IsSpace(r[0])
    ensures forall i :: 0 <= i < |s| - |r| ==> IsSpace(s[i])
    decreases |s|
  {
    if |s| > 0 && IsSpace(s[0]) then TrimStart(s[1..]) else s
  }

  /** `s.rstrip()`: drops the trailing whitespace and nothing else. */
  function TrimEnd(s: string): (r: string)
    ensures |r| <= |s| && r == s[..|r|]
    ensures r == [] || !IsSpace(r[|r| - 1])
    ensures forall i :: |r| <= i < |s| ==> IsSpace(s[i])
    decreases |s|
  {
    if |s| > 0 && IsSpace(s[|s| - 1]) then TrimEnd(s[..|s| - 1]) else s
  }

  /** `s.strip()`: the result is empty exactly when `s` is all whitespace, and
      otherwise it neither starts nor ends with whitespace. */
  function Strip(s: string): (r: string)
    ensures |r| <= |s|
    ensures r == [] <==> Blank(s)
    ensures r != [] ==> !IsSpace(r[0]) && !IsSpace(r[|r| - 1])
  {
    var t := TrimStart(s);
    var r := TrimEnd(t);
    assert t != [] ==> t[0] == s[|s| - |t|];
    assert r == [] ==> t == [];
    if r != [] then
      assert r[0] == t[0];
      r
    else
      r
  }

  /** A text that neither starts nor ends with whitespace is its own `strip()`. */
  lemma StripUnpadded(s: string)
    requires s != [] && !IsSpace(s[0]) && !IsSpace(s[|s| - 1])
    ensures Strip(s) == s
  {
  }

  lemma {:induction false} TrimStartPadded(pad: string, s: string)
    requires Blank(pad)
    ensures TrimStart(pad + s) == TrimStart(s)
    decreases |pad|
  {
    if pad != [] {
      assert (pad + s)[0] == pad[0];
      assert (pad + s)[1..] == pad[1..] + s;
      TrimStartPadded(pad[1..], s);
    } else {
      assert pad + s == s;
    }
  }

  lemma {:induction false} TrimEndPadded(s: string, pad: string)
    requires Blank(pad)
    ensures TrimEnd(s + pad) == TrimEnd(s)
    decreases |pad|
  {
    if pad != [] {
      var n := |s + pad|;
      assert (s + pad)[n - 1] == pad[|pad| - 1];
      assert (s + pad)[..n - 1] == s + pad[..|pad| - 1];
      TrimEndPadded(s, pad[..|pad| - 1]);
    } else {
      assert s + pad == s;
    }
  }

  /** Text after a non-blank start survives `lstrip` untouched. */
  lemma {:induction false} TrimStartAppend(s: string, t: string)
    requires !Blank(s)
    ensures TrimStart(s + t) == TrimStart(s) + t
    decreases |s|
  {
    assert (s + t)[0] == s[0];
    if IsSpace(s[0]) {
      assert (s + t)[1..] == s[1..] + t;
      assert !Blank(s[1..]) by {
        var i :| 0 <= i < |s| && !IsSpace(s[i]);
        assert s[1..][i - 1] == s[i];
      }
      TrimStartAppend(s[1..], t);
    }
  }

  /** Whitespace padding does not make a text blank or non-blank. */
  lemma BlankPadded(s: string, pad1: string, pad2: string)
    requires Blank(pad1) && Blank(pad2)
    ensures Blank(pad1 + s + pad2) <==> Blank(s)
  {
    var x := pad1 + s + pad2;
    forall i | 0 <= i < |x| ensures IsSpace(x[i]) <== Blank(s) {
      if i < |pad1| { assert x[i] == pad1[i]; }
      else if i < |pad1| + |s| { assert x[i] == s[i - |pad1|]; }
      else { assert x[i] == pad2[i - |pad1| - |s|]; }
    }
    forall i | 0 <= i < |s| ensures s[i] == x[|pad1| + i] { }
  }

  /** `(pad1 + s + pad2).strip() == s.strip()` for whitespace padding. */
  lemma StripPadded(s: string, pad1: string, pad2: string)
    requires Blank(pad1) && Blank(pad2)
    ensures Strip(pad1 + s + pad2) == Strip(s)
  {
    BlankPadded(s, pad1, pad2);
    if !Blank(s) {
      assert pad1 + s + pad2 == pad1 + (s + pad2);
      TrimStartPadded(pad1, s + pad2);
      TrimStartAppend(s, pad2);
      TrimEndPadded(TrimStart(s), pad2);
    }
  }

  // ---------------------------------------------------------------- lower

  /** `str.lower` on one character, for the ASCII letters only. */
  function LowerChar(c: char): char {
    if 'A' <= c <= 'Z' then (c as int + 32) as char else c
  }

  function Lower(s: string): (r: string)
    ensures |r| == |s|
    ensures forall i :: 0 <= i < |s| ==> r[i] == LowerChar(s[i])
  {
    seq(|s|, i requires 0 <= i < |s| => LowerChar(s[i]))
  }

  // ---------------------------------------------------------------- substring

  predicate IsPrefix(p: string, s: string) {
    |p| <= |s| && s[..|p|] == p
  }

  predicate IsSuffix(p: string, s: string) {
    |p| <= |s| && s[|s| - |p|..] == p
  }

  /** Python's `p in s` for strings. */
  predicate Contains(s: string, p: string)
    decreases |s|
  {
    IsPrefix(p, s) || (|s| > 0 && Contains(s[1..], p))
  }

  /** `p` sits in `s` at position `k`. */
  predicate OccursAt(s: string, p: string, k: int) {
    0 <= k <= |s| - |p| && s[k..k + |p|] == p
  }

  /** `p in s` holds exactly when `p` occurs in `s` at some position. */
  lemma {:induction false} ContainsIffOccurs(s: string, p: string)
    ensures Contains(s, p) <==> exists k :: OccursAt(s, p, k)
    decreases |s|
  {
    if IsPrefix(p, s) {
      assert s[0..|p|] == s[..|p|];
      assert OccursAt(s, p, 0);
    }
    if |s| > 0 {
      ContainsIffOccurs(s[1..], p);
      if Contains(s[1..], p) {
        var k :| OccursAt(s[1..], p, k);
        assert s[k + 1..k + 1 + |p|] == s[1..][k..k + |p|];
        assert OccursAt(s, p, k + 1);
      }
      if exists k :: OccursAt(s, p, k) {
        var k :| OccursAt(s, p, k);
        if k > 0 {
          assert s[1..][k - 1..k - 1 + |p|] == s[k..k + |p|];
          assert OccursAt(s[1..], p, k - 1);
        } else {
          assert s[..|p|] == s[k..k + |p|];
          assert IsPrefix(p, s);
        }
      }
    } else {
      if exists k :: OccursAt(s, p, k) {
        var k :| OccursAt(s, p, k);
        assert |p| == 0 && p == [];
        assert IsPrefix(p, s);
      }
    }
  }

  /** Whatever is pasted into a text can be found in it again. */
  lemma {:induction false} ContainsInfix(a: string, p: string, b: string)
    ensures Contains(a + p + b, p)
    decreases |a|
  {
    if |a| == 0 {
      assert a + p + b == p + b;
      assert IsPrefix(p, p + b);
    } else {
      ContainsInfix(a[1..], p, b);
      assert (a + p + b)[1..] == a[1..] + p + b;
    }
  }

  // ---------------------------------------------------------------- split

  /** Length of the leading run of non-whitespace characters. */
  function WordLength(s: string): (n: nat)
    ensures n <= |s|
    ensures forall i :: 0 <= i < n ==> !IsSpace(s[i])
    ensures n == |s| || IsSpace(s[n])
  {
    if |s| == 0 || IsSpace(s[0]) then 0 else 1 + WordLength(s[1..])
  }

  /** `s` with every whitespace character removed. */
  function NonSpace(s: string): string {
    if |s| == 0 then [] else (if IsSpace(s[0]) then [] else [s[0]]) + NonSpace(s[1..])
  }

  function Concat(ws: seq<string>): string {
    if |ws| == 0 then [] else ws[0] + Concat(ws[1..])
  }

  lemma {:induction false} ConcatAppend(a: seq<string>, b: seq<string>)
    ensures Concat(a + b) == Concat(a) + Concat(b)
    decreases |a|
  {
    if a == [] {
      assert a + b == b;
    } else {
      assert (a + b)[0] == a[0] && (a + b)[1..] == a[1..] + b;
      ConcatAppend(a[1..], b);
      assert a[0] + (Concat(a[1..]) + Concat(b)) == (a[0] + Concat(a[1..])) + Concat(b);
    }
  }

  lemma ConcatCons(x: string, post: seq<string>)
    ensures Concat([x] + post) == x + Concat(post)
  {
    assert ([x] + post)[0] == x && ([x] + post)[1..] == post;
  }

  lemma ConcatSplit(parts: seq<string>, i: nat)
    requires i < |parts|
    ensures Concat(parts) == Concat(parts[..i]) + parts[i] + Concat(parts[i + 1..])
  {
    var pre, x, post := parts[..i], parts[i], parts[i + 1..];
    SplitAt(parts, i);
    ConcatAppend(pre, [x] + post);
    ConcatCons(x, post);
    AppendAssoc(Concat(pre), x, Concat(post));
  }

  lemma SplitAt(parts: seq<string>, i: nat)
    requires i < |parts|
    ensures parts == parts[..i] + ([parts[i]] + parts[i + 1..])
  {
  }

  lemma AppendAssoc(a: string, b: string, c: string)
    ensures a + (b + c) == a + b + c
  {
  }

  /** Every piece of a concatenation can be found in it. */
  lemma MentionsPart(parts: seq<string>, i: nat, p: string)
    requires i < |parts| && parts[i] == p
    ensures Contains(Concat(parts), p)
  {
    ContainsPart(parts, i);
  }

  lemma ContainsPart(parts: seq<string>, i: nat)
    requires i < |parts|
    ensures Contains(Concat(parts), parts[i])
  {
    ConcatSplit(parts, i);
    ContainsInfix(Concat(parts[..i]), parts[i], Concat(parts[i + 1..]));
  }

  lemma {:induction false} NonSpaceAppend(a: string, b: string)
    ensures NonSpace(a + b) == NonSpace(a) + NonSpace(b)
    decreases |a|
  {
    if |a| > 0 {
      assert (a + b)[1..] == a[1..] + b;
      NonSpaceAppend(a[1..], b);
    } else {
      assert a + b == b;
    }
  }

  lemma {:induction false} NonSpaceOfWord(w: string)
    requires forall i :: 0 <= i < |w| ==> !IsSpace(w[i])
    ensures NonSpace(w) == w
    decreases |w|
  {
    if |w| > 0 {
      NonSpaceOfWord(w[1..]);
    }
  }

  /** `s.split()`: the maximal runs of non-whitespace, in order. Every word is
      non-empty and free of whitespace, and together they spell `s` without its
      whitespace. */
  function Words(s: string): (ws: seq<string>)
    ensures forall k :: 0 <= k < |ws| ==> ws[k] != []
    ensures forall k :: 0 <= k < |ws| ==> forall i :: 0 <= i < |ws[k]| ==> !IsSpace(ws[k][i])
    ensures Concat(ws) == NonSpace(s)
    decreases |s|
  {
    if |s| == 0 then []
    else if IsSpace(s[0]) then
      Words(s[1..])
    else
      var n := WordLength(s);
      var rest := Words(s[n..]);
      assert s == s[..n] + s[n..];
      NonSpaceAppend(s[..n], s[n..]);
      NonSpaceOfWord(s[..n]);
      assert ([s[..n]] + rest)[1..] == rest;
      [s[..n]] + rest
  }

  lemma {:induction false} WordLengthOfWord(w: string, t: string)
    requires forall i :: 0 <= i < |w| ==> !IsSpace(w[i])
    requires t == [] || IsSpace(t[0])
    ensures WordLength(w + t) == |w|
    decreases |w|
  {
    if w == [] {
      assert w + t == t;
    } else {
      assert (w + t)[0] == w[0];
      assert (w + t)[1..] == w[1..] + t;
      WordLengthOfWord(w[1..], t);
    }
  }

  /** A run of non-whitespace ended by whitespace or by the end of the text is one
      whole word: `split()` neither cuts it nor joins it to what follows. */
  lemma WordThenRest(w: string, t: string)
    requires w != [] && forall i :: 0 <= i < |w| ==> !IsSpace(w[i])
    requires t == [] || IsSpace(t[0])
    ensures Words(w + t) == [w] + Words(t)
  {
    var s := w + t;
    WordLengthOfWord(w, t);
    assert s[0] == w[0];
    assert s[..|w|] == w && s[|w|..] == t;
  }

  /** Leading whitespace, of any kind, yields no word. */
  lemma SpaceThenRest(c: char, t: string)
    requires IsSpace(c)
    ensures Words([c] + t) == Words(t)
  {
    assert ([c] + t)[1..] == t;
  }

  /** Appending text that starts with whitespace does not extend the last word. */
  lemma {:induction false} WordLengthBeforeSpace(a: string, t: string)
    requires WordLength(a) < |a| || t == [] || IsSpace(t[0])
    ensures WordLength(a + t) == WordLength(a)
    decreases |a|
  {
    if a == [] {
      assert a + t == t;
    } else {
      assert (a + t)[0] == a[0];
      if !IsSpace(a[0]) {
        assert (a + t)[1..] == a[1..] + t;
        WordLengthBeforeSpace(a[1..], t);
      }
    }
  }

  /** Splitting a text at whitespace splits its words there too. */
  lemma {:induction false} WordsAppend(a: string, t: string)
    requires t == [] || IsSpace(t[0])
    ensures Words(a + t) == Words(a) + Words(t)
    decreases |a|
  {
    if a == [] {
      assert a + t == t;
    } else if IsSpace(a[0]) {
      assert (a + t)[0] == a[0];
      assert (a + t)[1..] == a[1..] + t;
      WordsAppend(a[1..], t);
    } else {
      var n := WordLength(a);
      assert (a + t)[0] == a[0];
      WordLengthBeforeSpace(a, t);
      assert (a + t)[..n] == a[..n];
      assert (a + t)[n..] == a[n..] + t;
      WordsAppend(a[n..], t);
    }
  }

  /** A whitespace character separates the words before it from those after it. */
  lemma WordsSplitAtSpace(a: string, c: char, b: string)
    requires IsSpace(c)
    ensures Words(a + [c] + b) == Words(a) + Words(b)
  {
    assert a + [c] + b == a + ([c] + b);
    WordsAppend(a, [c] + b);
    SpaceThenRest(c, b);
  }

  /** Whitespace-free text is one word. */
  lemma OneWord(w: string)
    requires w != [] && forall i :: 0 <= i < |w| ==> !IsSpace(w[i])
    ensures Words(w) == [w]
  {
    assert w + [] == w;
    WordThenRest(w, []);
  }

  /** A word followed by whitespace-free text after one space splits into the two. */
  lemma TwoWords(a: string, b: string)
    requires a != [] && b != []
    requires forall i :: 0 <= i < |a| ==> !IsSpace(a[i])
    requires forall i :: 0 <= i < |b| ==> !IsSpace(b[i])
    ensures Words(a + " " + b) == [a, b]
  {
    var t := " " + b;
    assert a + " " + b == a + t;
    WordThenRest(a, t);
    SpaceThenRest(' ', b);
    OneWord(b);
  }

  // ---------------------------------------------------------------- join, slice, format

  /** `sep.join(parts)`. */
  function Join(parts: seq<string>, sep: string): string {
    if |parts| == 0 then []
    else if |parts| == 1 then parts[0]
    else parts[0] + sep + Join(parts[1..], sep)
  }

  /** A joined text opens with its first three parts and their separators. */
  lemma JoinFront(xs: seq<string>, sep: string)
    requires |xs| >= 4
    ensures IsPrefix(xs[0] + sep + xs[1] + sep + xs[2], Join(xs, sep))
  {
    var ys, zs := xs[1..], xs[2..];
    assert ys[0] == xs[1] && ys[1..] == zs && zs[0] == xs[2];
    var tail := Join(xs[3..], sep);
    assert zs[1..] == xs[3..];
    assert Join(zs, sep) == xs[2] + sep + tail;
    assert Join(xs, sep) == xs[0] + sep + (xs[1] + sep + (xs[2] + sep + tail));
    var front := xs[0] + sep + xs[1] + sep + xs[2];
    assert Join(xs, sep) == front + (sep + tail);
  }

  /** A joined text opens with its first part. */
  lemma JoinHead(xs: seq<string>, sep: string)
    requires |xs| >= 1
    ensures IsPrefix(xs[0], Join(xs, sep))
  {
    if |xs| > 1 {
      assert Join(xs, sep) == xs[0] + (sep + Join(xs[1..], sep));
    }
  }

  lemma PrefixOfAppend(a: string, b: string)
    ensures IsPrefix(a, a + b)
  {
    assert (a + b)[..|a|] == a;
  }

  lemma PrefixTrans(a: string, b: string, c: string)
    requires IsPrefix(a, b) && IsPrefix(b, c)
    ensures IsPrefix(a, c)
  {
    assert c[..|a|] == c[..|b|][..|a|];
  }

  lemma SuffixOfAppend(a: string, b: string)
    ensures IsSuffix(b, a + b)
  {
    assert (a + b)[|a|..] == b;
  }

  lemma SuffixTrans(a: string, b: string, c: string)
    requires IsSuffix(a, b) && IsSuffix(b, c)
    ensures IsSuffix(a, c)
  {
    assert c[|c| - |a|..] == c[|c| - |b|..][|b| - |a|..];
  }

  /** What a text contains, any text containing it contains too. */
  lemma ContainsTrans(a: string, b: string, p: string)
    requires Contains(a, b) && Contains(b, p)
    ensures Contains(a, p)
  {
    ContainsIffOccurs(a, b);
    ContainsIffOccurs(b, p);
    var i :| OccursAt(a, b, i);
    var j :| OccursAt(b, p, j);
    forall k | 0 <= k < |p| ensures a[i + j + k] == p[k] {
      assert a[i + j + k] == a[i..i + |b|][j + k] == b[j + k];
      assert p[k] == b[j..j + |p|][k];
    }
    assert a[i + j..i + j + |p|] == p;
    assert OccursAt(a, p, i + j);
    ContainsIffOccurs(a, p);
  }

  lemma ContainsPrefix(p: string, s: string)
    requires IsPrefix(p, s)
    ensures Contains(s, p)
  {
  }

  lemma ContainsSuffix(p: string, s: string)
    ensures IsSuffix(p, s) ==> Contains(s, p)
  {
    if IsSuffix(p, s) {
      ContainsIffOccurs(s, p);
      assert OccursAt(s, p, |s| - |p|);
    }
  }

  /** A concatenation ends with its last piece. */
  lemma ConcatLast(parts: seq<string>)
    requires parts != []
    ensures IsSuffix(parts[|parts| - 1], Concat(parts))
  {
    var n := |parts| - 1;
    ConcatSplit(parts, n);
    assert parts[n + 1..] == [];
    var r := Concat(parts[..n]) + parts[n];
    assert Concat(parts) == r;
    assert r[|r| - |parts[n]|..] == parts[n];
  }

  /** A joined text ends with its last part. */
  lemma {:induction false} JoinBack(xs: seq<string>, sep: string)
    requires |xs| >= 1
    ensures IsSuffix(xs[|xs| - 1], Join(xs, sep))
    decreases |xs|
  {
    if |xs| > 1 {
      JoinBack(xs[1..], sep);
      var last, rest := xs[|xs| - 1], Join(xs[1..], sep);
      assert xs[1..][|xs[1..]| - 1] == last;
      var j := xs[0] + sep + rest;
      assert j[|j| - |last|..] == rest[|rest| - |last|..];
    }
  }

  /** Python's `s[:n]` for `n >= 0`. */
  function Take<T>(s: seq<T>, n: nat): (r: seq<T>)
    ensures |r| == if |s| <= n then |s| else n
    ensures r == s[..|r|]
  {
    if |s| <= n then s else s[..n]
  }

  function Digit(d: nat): char
    requires d < 10
  {
    ('0' as int + d) as char
  }

  /** Decimal rendering of a natural number, as `str(n)` or an f-string prints it:
      digits only, and no leading zero. */
  function Show(n: nat): (r: string)
    ensures |r| >= 1
    ensures forall i :: 0 <= i < |r| ==> '0' <= r[i] <= '9'
    ensures r[0] == '0' ==> n == 0
  {
    if n < 10 then [Digit(n)] else Show(n / 10) + [Digit(n % 10)]
  }

  /** The number a string of decimal digits denotes, read left to right. */
  function Value(s: string): (v: nat)
    requires forall i :: 0 <= i < |s| ==> '0' <= s[i] <= '9'
  {
    if s == [] then 0 else Value(s[..|s| - 1]) * 10 + (s[|s| - 1] as int - '0' as int)
  }

  /** Reading back what `Show` prints gives the number again. */
  lemma {:induction false} ShowValue(n: nat)
    ensures Value(Show(n)) == n
    decreases n
  {
    var s := Show(n);
    if n >= 10 {
      ShowValue(n / 10);
      assert s[..|s| - 1] == Show(n / 10);
    }
  }

  /** Different numbers print differently. */
  lemma ShowInjective(m: nat, n: nat)
    requires Show(m) == Show(n)
    ensures m == n
  {
    ShowValue(m);
    ShowValue(n);
  }
}
