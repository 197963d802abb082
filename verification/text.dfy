/** The string primitives the parser is built from, modelled on Rust's `str`
    methods: `char::is_whitespace`, `trim`, `split(pat)`, `join` and
    `split_whitespace`. Strings are sequences of Unicode scalar values. */
module Text {

  /** Rust's `char::is_whitespace`: the Unicode White_Space property. */
  predicate IsSpace(c: char) {
    || ('\t' <= c <= '\r')
    || c == ' '
    || c == '\U{0085}'
    || c == '\U{00A0}'
    || c == '\U{1680}'
    || ('\U{2000}' <= c <= '\U{200A}')
    || c == '\U{2028}'
    || c == '\U{2029}'
    || c == '\U{202F}'
    || c == '\U{205F}'
    || c == '\U{3000}'
  }

  predicate AllSpace(s: string) {
    forall k :: 0 <= k < |s| ==> IsSpace(s[k])
  }

  /** A token as `split_whitespace` yields it: non-empty, no whitespace. */
  predicate IsWord(w: string) {
    |w| > 0 && forall k :: 0 <= k < |w| ==> !IsSpace(w[k])
  }

  /** Sequence concatenation regroups freely. */
  lemma AppendAssoc<T>(a: seq<T>, b: seq<T>, c: seq<T>)
    ensures a + b + c == a + (b + c)
  {
  }

  /** Number of occurrences of `c` in `s`. */
  function CountOf(s: string, c: char): (n: nat)
    ensures n <= |s|
  {
    if |s| == 0 then 0 else (if s[0] == c then 1 else 0) + CountOf(s[1..], c)
  }

  /** `c` occurs nowhere exactly when its count is zero. */
  lemma {:induction false} CountOfZero(s: string, c: char)
    ensures CountOf(s, c) == 0 <==> c !in s
  {
    if |s| > 0 {
      CountOfZero(s[1..], c);
      assert s == [s[0]] + s[1..];
    }
  }

  // ---------------------------------------------------------------------
  // trim

  /** `trim_start`: drops the leading whitespace and nothing else. */
  function TrimStart(s: string): (r: string)
    ensures |r| <= |s| && r == s[|s| - |r|..]
    ensures AllSpace(s[..|s| - |r|])
    ensures |r| > 0 ==> !IsSpace(r[0])
  {
    if |s| > 0 && IsSpace(s[0]) then TrimStart(s[1..]) else s
  }

  /** `trim_end`: drops the trailing whitespace and nothing else. */
  function TrimEnd(s: string): (r: string)
    ensures |r| <= |s| && r == s[..|r|]
    ensures AllSpace(s[|r|..])
    ensures |r| > 0 ==> !IsSpace(r[|r| - 1])
  {
    if |s| > 0 && IsSpace(s[|s| - 1]) then TrimEnd(s[..|s| - 1]) else s
  }

  /** `trim`: the slice of `s` between its leading and trailing whitespace. */
  function Trim(s: string): (r: string)
    ensures |r| <= |s|
    ensures |r| > 0 ==> !IsSpace(r[0]) && !IsSpace(r[|r| - 1])
  {
    TrimEnd(TrimStart(s))
  }

  /** Trimming leaves nothing exactly when the string is all whitespace. */
  lemma {:induction false} TrimEmpty(s: string)
    ensures Trim(s) == [] <==> AllSpace(s)
  {
    var t := TrimStart(s);
    var r := TrimEnd(t);
    var k := |s| - |t|;
    if r == [] {
      assert t == [];
      assert s[..k] == s;
    } else {
      assert s[k] == r[0];
      assert !IsSpace(s[k]);
    }
  }

  /** Trimming keeps only characters of the original. */
  lemma TrimChars(s: string)
    ensures forall ch :: ch in Trim(s) ==> ch in s
  {
    var t := TrimStart(s);
    var i := |s| - |t|;
    var r := TrimEnd(t);
    assert r == s[i..i + |r|];
    SliceChars(s, i, i + |r|);
  }

  /** A slice holds only characters of the whole. */
  lemma SliceChars(s: string, i: nat, j: nat)
    requires i <= j <= |s|
    ensures forall ch :: ch in s[i..j] ==> ch in s
  {
    forall ch | ch in s[i..j] ensures ch in s {
      var k :| 0 <= k < j - i && s[i..j][k] == ch;
      assert s[i + k] == ch;
    }
  }

  // ---------------------------------------------------------------------
  // split on one character, and its inverse join

  /** `parts.join(sep)`. */
  function Join(parts: seq<string>, sep: string): string {
    if |parts| == 0 then []
    else if |parts| == 1 then parts[0]
    else parts[0] + sep + Join(parts[1..], sep)
  }

  /** `s.split(c)` collected into a vector: the pieces between successive
      occurrences of `c`, empty pieces included; never an empty vector. */
  function Split(s: string, c: char): (r: seq<string>)
    ensures |r| == CountOf(s, c) + 1
    ensures forall p :: p in r ==> c !in p
  {
    if |s| == 0 then [[]]
    else
      var rest := Split(s[1..], c);
      if s[0] == c then [[]] + rest
      else
        assert rest[0] in rest;
        [[s[0]] + rest[0]] + rest[1..]
  }

  /** Every character of a piece comes from the split string. */
  lemma {:induction false} SplitChars(s: string, c: char)
    ensures forall p, ch :: p in Split(s, c) && ch in p ==> ch in s
  {
    if |s| > 0 {
      SplitChars(s[1..], c);
      var rest := Split(s[1..], c);
      forall p, ch | p in Split(s, c) && ch in p ensures ch in s {
        if s[0] != c && p == [s[0]] + rest[0] && ch != s[0] {
          assert rest[0] in rest;
        } else if p != [s[0]] + rest[0] && p != [] {
          assert p in rest;
        }
      }
    }
  }

  lemma JoinCons(p: string, ps: seq<string>, sep: string)
    requires |ps| > 0
    ensures Join([p] + ps, sep) == p + sep + Join(ps, sep)
  {
    assert ([p] + ps)[1..] == ps;
  }

  /** Splitting and joining back with the same character is the identity. */
  lemma {:induction false} SplitJoin(s: string, c: char)
    ensures Join(Split(s, c), [c]) == s
  {
    if |s| > 0 {
      var rest := Split(s[1..], c);
      SplitJoin(s[1..], c);
      if s[0] == c {
        JoinCons([], rest, [c]);
        assert s == [c] + s[1..];
      } else if |rest| == 1 {
        assert s == [s[0]] + s[1..];
      } else {
        JoinCons([s[0]] + rest[0], rest[1..], [c]);
        JoinCons(rest[0], rest[1..], [c]);
        assert [rest[0]] + rest[1..] == rest;
        assert s == [s[0]] + s[1..];
      }
    }
  }

  lemma SplitCons(x: char, s: string, c: char)
    requires x != c
    ensures Split([x] + s, c) == [[x] + Split(s, c)[0]] + Split(s, c)[1..]
  {
    assert ([x] + s)[1..] == s;
  }

  /** A piece free of `c` is glued onto the first piece of what follows it. */
  lemma {:induction false} SplitPrefix(p: string, s: string, c: char)
    requires c !in p
    ensures Split(p + s, c) == [p + Split(s, c)[0]] + Split(s, c)[1..]
  {
    var sp := Split(s, c);
    if |p| > 0 {
      var tl := p[1..];
      assert p[0] in p;
      assert c !in tl by {
        forall k | 0 <= k < |tl| ensures tl[k] != c { assert tl[k] == p[k + 1]; }
      }
      SplitPrefix(tl, s, c);
      var rest := Split(tl + s, c);
      assert p + s == [p[0]] + (tl + s);
      assert rest[0] == tl + sp[0] && rest[1..] == sp[1..];
      SplitCons(p[0], tl + s, c);
      assert Split(p + s, c) == [[p[0]] + rest[0]] + rest[1..];
      assert [p[0]] + (tl + sp[0]) == p + sp[0];
    } else {
      assert p + s == s;
      assert p + sp[0] == sp[0];
      assert [sp[0]] + sp[1..] == sp;
    }
  }

  /** Joining `c`-free pieces with `c` and splitting again gives the pieces. */
  lemma {:induction false} JoinSplit(parts: seq<string>, c: char)
    requires |parts| > 0
    requires forall p :: p in parts ==> c !in p
    ensures Split(Join(parts, [c]), c) == parts
  {
    var head := parts[0];
    assert head in parts;
    if |parts| == 1 {
      SplitPrefix(head, [], c);
      assert head + [] == head;
      assert Split([], c) == [[]];
      assert head + [] == head;
    } else {
      var tail := parts[1..];
      assert forall p :: p in tail ==> p in parts;
      JoinSplit(tail, c);
      var j := Join(tail, [c]);
      var sj := [c] + j;
      assert Join(parts, [c]) == head + sj;
      assert sj[0] == c && sj[1..] == j;
      assert Split(sj, c) == [[]] + tail;
      SplitPrefix(head, sj, c);
      assert head + [] == head;
      assert parts == [head] + tail;
    }
  }

  // ---------------------------------------------------------------------
  // split_whitespace

  /** Length of the longest whitespace-free prefix of `s`. */
  function WordLen(s: string): (n: nat)
    ensures n <= |s|
    ensures forall k :: 0 <= k < n ==> !IsSpace(s[k])
    ensures n < |s| ==> IsSpace(s[n])
  {
    if |s| == 0 || IsSpace(s[0]) then 0 else 1 + WordLen(s[1..])
  }

  /** `s.split_whitespace()` collected into a vector: the maximal runs of
      non-whitespace characters, in order. */
  function Tokens(s: string): (r: seq<string>)
    ensures forall t :: t in r ==> IsWord(t)
    decreases |s|
  {
    if |s| == 0 then []
    else if IsSpace(s[0]) then Tokens(s[1..])
    else
      var n := WordLen(s);
      [s[..n]] + Tokens(s[n..])
  }

  /** A string has no tokens exactly when it is all whitespace. */
  lemma {:induction false} TokensEmpty(s: string)
    ensures Tokens(s) == [] <==> AllSpace(s)
    decreases |s|
  {
    if |s| > 0 && IsSpace(s[0]) {
      TokensEmpty(s[1..]);
      assert AllSpace(s) <==> AllSpace(s[1..]) by {
        if AllSpace(s[1..]) {
          forall k | 0 <= k < |s| ensures IsSpace(s[k]) {
            if k > 0 { assert s[k] == s[1..][k - 1]; }
          }
        }
      }
    }
  }

  lemma {:induction false} WordLenBeforeSpace(a: string, c: char, b: string)
    requires IsSpace(c)
    ensures WordLen(a + [c] + b) == WordLen(a)
    decreases |a|
  {
    if |a| > 0 && !IsSpace(a[0]) {
      assert (a + [c] + b)[1..] == a[1..] + [c] + b;
      WordLenBeforeSpace(a[1..], c, b);
    }
  }

  /** A whitespace character separates tokens: the tokens on its two sides
      are the tokens of the whole. */
  lemma {:induction false} TokensSplitAt(a: string, c: char, b: string)
    requires IsSpace(c)
    ensures Tokens(a + [c] + b) == Tokens(a) + Tokens(b)
    decreases |a|
  {
    if |a| == 0 {
      assert (a + [c] + b)[1..] == b;
    } else if IsSpace(a[0]) {
      TokensSplitAt(a[1..], c, b);
      SpaceStep(a, c, b);
    } else {
      var n := WordLen(a);
      TokensSplitAt(a[n..], c, b);
      WordStep(a, c, b);
    }
  }

  /** The step of `TokensSplitAt` past a leading whitespace character. */
  lemma SpaceStep(a: string, c: char, b: string)
    requires IsSpace(c) && |a| > 0 && IsSpace(a[0])
    requires Tokens(a[1..] + [c] + b) == Tokens(a[1..]) + Tokens(b)
    ensures Tokens(a + [c] + b) == Tokens(a) + Tokens(b)
  {
    assert (a + [c] + b)[1..] == a[1..] + [c] + b;
  }

  /** The step of `TokensSplitAt` past a leading word. */
  lemma WordStep(a: string, c: char, b: string)
    requires IsSpace(c) && |a| > 0 && !IsSpace(a[0])
    requires Tokens(a[WordLen(a)..] + [c] + b) == Tokens(a[WordLen(a)..]) + Tokens(b)
    ensures Tokens(a + [c] + b) == Tokens(a) + Tokens(b)
  {
    var s := a + [c] + b;
    WordLenBeforeSpace(a, c, b);
    WordHeadParts(a, c, b, WordLen(a));
    TokensWordHead(s);
    TokensWordHead(a);
  }

  /** Cutting `a + [c] + b` inside `a`. */
  lemma WordHeadParts(a: string, c: char, b: string, n: nat)
    requires 0 < |a| && n <= |a|
    ensures var s := a + [c] + b;
      && s[0] == a[0] && s[..n] == a[..n] && s[n..] == a[n..] + [c] + b
  {
  }

  lemma TokensWordHead(s: string)
    requires |s| > 0 && !IsSpace(s[0])
    ensures Tokens(s) == [s[..WordLen(s)]] + Tokens(s[WordLen(s)..])
  {
  }

  lemma AllSpaceTail(b: string)
    requires |b| > 0 && AllSpace(b)
    ensures IsSpace(b[0]) && AllSpace(b[1..])
  {
    forall k | 0 <= k < |b| - 1 ensures IsSpace(b[1..][k]) { assert b[1..][k] == b[k + 1]; }
  }

  /** Trailing whitespace contributes no token. */
  lemma TokensTrailingSpace(a: string, b: string)
    requires AllSpace(b)
    ensures Tokens(a + b) == Tokens(a)
  {
    if |b| > 0 {
      AllSpaceTail(b);
      TokensSplitAt(a, b[0], b[1..]);
      assert a + b == a + [b[0]] + b[1..];
      TokensEmpty(b[1..]);
      assert Tokens(a) + Tokens(b[1..]) == Tokens(a) + [];
    } else {
      assert a + b == a;
    }
  }

  /** Leading whitespace contributes no token. */
  lemma {:induction false} TokensLeadingSpace(a: string, b: string)
    requires AllSpace(a)
    ensures Tokens(a + b) == Tokens(b)
    decreases |a|
  {
    if |a| > 0 {
      assert (a + b)[1..] == a[1..] + b;
      TokensLeadingSpace(a[1..], b);
    } else {
      assert a + b == b;
    }
  }

  lemma {:induction false} TokensTrimStart(s: string)
    ensures Tokens(TrimStart(s)) == Tokens(s)
    decreases |s|
  {
    if |s| > 0 && IsSpace(s[0]) {
      TokensTrimStart(s[1..]);
    }
  }

  lemma {:induction false} TokensTrimEnd(s: string)
    ensures Tokens(TrimEnd(s)) == Tokens(s)
    decreases |s|
  {
    if |s| > 0 && IsSpace(s[|s| - 1]) {
      var init := s[..|s| - 1];
      assert TrimEnd(s) == TrimEnd(init);
      TokensTrimEnd(init);
      TokensSplitAt(init, s[|s| - 1], []);
      assert init + [s[|s| - 1]] + [] == s;
      assert Tokens([]) == [];
      assert Tokens(s) == Tokens(init) + [];
    }
  }

  /** Trimming never changes the tokens. */
  lemma TokensTrim(s: string)
    ensures Tokens(Trim(s)) == Tokens(s)
  {
    TokensTrimStart(s);
    TokensTrimEnd(TrimStart(s));
  }

  /** A word is its own only token. */
  lemma TokensOfWord(w: string)
    requires IsWord(w)
    ensures Tokens(w) == [w]
  {
    assert WordLen(w) == |w|;
    assert w[..|w|] == w;
  }

  /** Words joined with single spaces tokenize back to the same words. */
  lemma {:induction false} TokensOfJoin(ws: seq<string>)
    requires forall w :: w in ws ==> IsWord(w)
    ensures Tokens(Join(ws, " ")) == ws
  {
    if |ws| == 1 {
      TokensOfWord(ws[0]);
    } else if |ws| > 1 {
      assert forall w :: w in ws[1..] ==> w in ws;
      TokensOfJoin(ws[1..]);
      TokensOfWord(ws[0]);
      TokensSplitAt(ws[0], ' ', Join(ws[1..], " "));
      assert ws[0] + " " + Join(ws[1..], " ") == ws[0] + [' '] + Join(ws[1..], " ");
      assert ws == [ws[0]] + ws[1..];
    }
  }
}
