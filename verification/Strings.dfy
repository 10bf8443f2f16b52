/** The string operations the parsers use, as Rust's standard library defines them. */
module Strings {
  import opened Wrappers

  /** The Unicode `White_Space` property. */
  predicate IsSpace(c: char) {
    var n := c as int;
    || 0x9 <= n <= 0xD || n == 0x20 || n == 0x85 || n == 0xA0 || n == 0x1680
    || 0x2000 <= n <= 0x200A || n == 0x2028 || n == 0x2029 || n == 0x202F || n == 0x205F || n == 0x3000
  }

  /** Twenty-five characters, among them space, tab and the line ends, and nothing printable in ASCII. */
  lemma WhiteSpace(c: char)
    ensures IsSpace(c) <==> c as int in {9, 10, 11, 12, 13, 32, 133, 160, 5760, 8192, 8193, 8194, 8195, 8196, 8197,
      8198, 8199, 8200, 8201, 8202, 8232, 8233, 8239, 8287, 12288}
    ensures c in {' ', '\t', '\n', '\r'} ==> IsSpace(c)
    ensures '!' <= c <= '~' ==> !IsSpace(c)
  {
  }

  function TrimStart(s: string): string {
    if s != [] && IsSpace(s[0]) then TrimStart(s[1..]) else s
  }

  function TrimEnd(s: string): string {
    if s != [] && IsSpace(s[|s| - 1]) then TrimEnd(s[..|s| - 1]) else s
  }

  function Trim(s: string): string { TrimEnd(TrimStart(s)) }

  /** Neither end is white space. */
  predicate Trimmed(s: string) {
    s != [] ==> !IsSpace(s[0]) && !IsSpace(s[|s| - 1])
  }

  /** The position of the first `c`, or the length if there is none. */
  function Find(s: string, c: char): (i: nat)
    ensures i <= |s| && c !in s[..i]
    ensures i < |s| ==> s[i] == c
    ensures c in s <==> i < |s|
  {
    if s == [] || s[0] == c then 0 else
      var i := 1 + Find(s[1..], c);
      assert s[..i] == [s[0]] + s[1..][..i - 1];
      assert s == [s[0]] + s[1..];
      i
  }

  /** The pieces between separators; always at least one. */
  function Split(s: string, c: char): (ps: seq<string>)
    ensures ps != []
    decreases |s|
  {
    var i := Find(s, c);
    if i == |s| then [s] else [s[..i]] + Split(s[i + 1..], c)
  }

  function SplitOnce(s: string, c: char): Option<(string, string)> {
    var i := Find(s, c);
    if i == |s| then None else Some((s[..i], s[i + 1..]))
  }

  // ----- properties -----

  lemma FindUnique(s: string, c: char, i: nat)
    requires i < |s| && s[i] == c && c !in s[..i]
    ensures Find(s, c) == i
  {
    var f := Find(s, c);
    assert s[i] in s;
    assert forall k :: 0 <= k < f ==> s[..f][k] == s[k];
    assert forall k :: 0 <= k < i ==> s[..i][k] == s[k];
  }

  lemma SplitAt(s: string, c: char, i: nat)
    requires i < |s| && s[i] == c && c !in s[..i]
    ensures Split(s, c) == [s[..i]] + Split(s[i + 1..], c)
  {
    FindUnique(s, c, i);
  }

  lemma SplitNone(s: string, c: char)
    requires c !in s
    ensures Split(s, c) == [s]
  {
  }

  lemma FirstIndex(s: string, c: char) returns (i: nat)
    requires c in s
    ensures i < |s| && s[i] == c && c !in s[..i]
  {
    i := Find(s, c);
  }

  /** Cutting at the first separator of the left part. */
  lemma SplitAppendAt(a: string, b: string, c: char, i: nat)
    requires i < |a| && a[i] == c && c !in a[..i]
    ensures Split(a + [c] + b, c) == [a[..i]] + Split(a[i + 1..] + [c] + b, c)
  {
    hide Split;
    var s := a + [c] + b;
    assert s[..i] == a[..i];
    SplitAt(s, c, i);
    assert s[i + 1..] == a[i + 1..] + [c] + b;
  }

  /** A separator between two texts separates their pieces. */
  lemma {:induction false} SplitAppend(a: string, b: string, c: char)
    ensures Split(a + [c] + b, c) == Split(a, c) + Split(b, c)
    decreases |a|
  {
    hide Split;
    if c in a {
      var i := FirstIndex(a, c);
      SplitAppend(a[i + 1..], b, c);
      SplitAt(a, c, i);
      SplitAppendAt(a, b, c, i);
      assert [a[..i]] + Split(a[i + 1..], c) + Split(b, c) == [a[..i]] + (Split(a[i + 1..], c) + Split(b, c));
    } else {
      var s := a + [c] + b;
      assert s[..|a|] == a && s[|a| + 1..] == b;
      SplitAt(s, c, |a|);
      SplitNone(a, c);
    }
  }

  /** Pieces do not contain the separator. */
  lemma {:induction false} SplitPieces(s: string, c: char)
    ensures forall p :: p in Split(s, c) ==> c !in p
    decreases |s|
  {
    var i := Find(s, c);
    if i < |s| {
      SplitPieces(s[i + 1..], c);
    }
  }

  lemma {:induction false} TrimStartMeans(s: string)
    ensures var r := TrimStart(s);
      |r| <= |s| && r == s[|s| - |r|..] && (r != [] ==> !IsSpace(r[0]))
        && forall i :: 0 <= i < |s| - |r| ==> IsSpace(s[i])
  {
    if s != [] && IsSpace(s[0]) {
      TrimStartMeans(s[1..]);
      var r := TrimStart(s);
      assert s[1..][|s| - 1 - |r|..] == s[|s| - |r|..];
      assert forall i :: 0 < i < |s| - |r| ==> s[i] == s[1..][i - 1];
    }
  }

  lemma {:induction false} TrimEndMeans(s: string)
    ensures var r := TrimEnd(s);
      |r| <= |s| && r == s[..|r|] && (r != [] ==> !IsSpace(r[|r| - 1])) && forall i :: |r| <= i < |s| ==> IsSpace(s[i])
  {
    if s != [] && IsSpace(s[|s| - 1]) {
      TrimEndMeans(s[..|s| - 1]);
    }
  }

  /** Trimming leaves a trimmed middle part, which ends where `TrimEnd` ends. */
  lemma TrimMeans(s: string)
    ensures Trimmed(Trim(s))
    ensures forall c :: c in Trim(s) ==> c in s
    ensures var r, e := Trim(s), TrimEnd(s); r != [] ==> e != [] && r[|r| - 1] == e[|e| - 1]
  {
    hide TrimStart, TrimEnd, IsSpace;
    TrimStartMeans(s);
    TrimEndMeans(TrimStart(s));
    TrimEndMeans(s);
    var t, r, e := TrimStart(s), Trim(s), TrimEnd(s);
    var k := |s| - |t|;
    assert forall i :: 0 <= i < |t| ==> t[i] == s[k + i];
    if r != [] {
      assert r[0] == t[0];
      assert r[|r| - 1] == t[|r| - 1] == s[k + |r| - 1];
      forall i | k + |r| <= i < |s| ensures IsSpace(s[i]) {
        assert s[i] == t[i - k];
      }
    }
  }

  lemma TrimmedStays(s: string)
    requires Trimmed(s)
    ensures Trim(s) == s && TrimEnd(s) == s && TrimStart(s) == s
  {
  }
}
