/** The parts of Python's `str` behaviour the front end relies on: `strip()`,
    `split('\n')`, `startswith` and the `in` substring test. */
module Text {

  /** Python's `str.isspace` for a single character: the characters `strip()`
      with no argument removes. */
  predicate IsSpace(c: char) {
    var n := c as int;
    (9 <= n <= 13) || (28 <= n <= 32) || n == 0x85 || n == 0xA0 || n == 0x1680
    || (0x2000 <= n <= 0x200A) || n == 0x2028 || n == 0x2029 || n == 0x202F
    || n == 0x205F || n == 0x3000
  }

  function TrimLeft(s: string): string {
    if |s| > 0 && IsSpace(s[0]) then TrimLeft(s[1..]) else s
  }

  function TrimRight(s: string): string {
    if |s| > 0 && IsSpace(s[|s| - 1]) then TrimRight(s[..|s| - 1]) else s
  }

  /** `s.strip()`. */
  function Strip(s: string): string {
    TrimRight(TrimLeft(s))
  }

  /** `s.strip() == ""`, i.e. `not s.strip()`. */
  predicate IsBlank(s: string) {
    Strip(s) == ""
  }

  lemma {:induction false} BlankIffAllSpace(s: string)
    ensures IsBlank(s) <==> forall k :: 0 <= k < |s| ==> IsSpace(s[k])
  {
    if |s| > 0 && IsSpace(s[0]) {
      BlankIffAllSpace(s[1..]);
      assert forall k :: 1 <= k < |s| ==> s[k] == s[1..][k - 1];
    } else if |s| > 0 {
      assert TrimLeft(s) == s;
      if |s| > 0 {
        assert TrimRight(s) == s || IsSpace(s[|s| - 1]);
        TrimRightKeepsNonSpaceHead(s);
      }
    }
  }

  lemma {:induction false} TrimRightKeepsNonSpaceHead(s: string)
    requires |s| > 0 && !IsSpace(s[0])
    ensures |TrimRight(s)| > 0 && TrimRight(s)[0] == s[0]
  {
    if IsSpace(s[|s| - 1]) {
      TrimRightKeepsNonSpaceHead(s[..|s| - 1]);
    }
  }

  /** `s.startswith(p)`. */
  predicate StartsWith(s: string, p: string) {
    |p| <= |s| && s[..|p|] == p
  }

  /** `t` occurs in `s` at position `i`. */
  predicate OccursAt(s: string, t: string, i: nat) {
    i + |t| <= |s| && s[i..i + |t|] == t
  }

  /** `t in s`. */
  predicate Contains(s: string, t: string) {
    exists i :: 0 <= i <= |s| && OccursAt(s, t, i)
  }

  lemma ContainsFirstChar(s: string, t: string)
    requires |t| > 0 && Contains(s, t)
    ensures t[0] in s
  {
    var i :| 0 <= i <= |s| && OccursAt(s, t, i);
    assert s[i] == s[i..i + |t|][0];
  }

  /** `s.split('\n')`: the pieces between newlines, always at least one. */
  function Split(s: string): (r: seq<string>)
    ensures |r| >= 1
  {
    if s == [] then [[]]
    else
      var rest := Split(s[1..]);
      if s[0] == '\n' then [[]] + rest else [[s[0]] + rest[0]] + rest[1..]
  }

  /** Appending a newline to a text opens a new, empty last piece. */
  lemma {:induction false} SplitSnocNewline(s: string)
    ensures Split(s + ['\n']) == Split(s) + [[]]
  {
    if s == [] {
      assert ['\n'][1..] == [];
    } else {
      assert (s + ['\n'])[0] == s[0] && (s + ['\n'])[1..] == s[1..] + ['\n'];
      SplitSnocNewline(s[1..]);
    }
  }

  /** Appending any other character to a text extends its last piece. */
  lemma {:induction false} SplitSnocOther(s: string, c: char)
    requires c != '\n'
    ensures var r := Split(s); Split(s + [c]) == r[..|r| - 1] + [r[|r| - 1] + [c]]
  {
    if s == [] {
      var e: string := [];
      assert s == e && Split(e) == [e];
      assert e + [c] == [c] && [c][1..] == e;
      assert [c] + e == [c] && [e][1..] == [];
      assert Split([c]) == [[c]];
    } else {
      SplitSnocOther(s[1..], c);
      var r' := Split(s[1..]);
      var tail := Split(s[1..] + [c]);
      assert (s + [c])[0] == s[0] && (s + [c])[1..] == s[1..] + [c];
      if s[0] == '\n' {
        assert Split(s) == [[]] + r';
        assert Split(s + [c]) == [[]] + tail;
      } else {
        assert Split(s) == [[s[0]] + r'[0]] + r'[1..];
        assert Split(s + [c]) == [[s[0]] + tail[0]] + tail[1..];
        ExtendFirstPiece(s[0], r', tail, c);
      }
    }
  }

  /** Sequence bookkeeping for the inductive step of SplitSnocOther. */
  lemma ExtendFirstPiece(x: char, r': seq<string>, tail: seq<string>, c: char)
    requires |r'| >= 1
    requires tail == r'[..|r'| - 1] + [r'[|r'| - 1] + [c]]
    ensures var r := [[x] + r'[0]] + r'[1..];
      [[x] + tail[0]] + tail[1..] == r[..|r| - 1] + [r[|r| - 1] + [c]]
  {
    var n := |r'|;
    var head := [x] + r'[0];
    if n == 1 {
      assert tail == [r'[0] + [c]];
      assert [x] + (r'[0] + [c]) == head + [c];
    } else {
      assert tail[0] == r'[0];
      assert tail[1..] == r'[1..n - 1] + [r'[n - 1] + [c]];
      assert ([head] + r'[1..])[..n - 1] == [head] + r'[1..n - 1];
    }
  }

  /** Adding a space character at the front of a text does not change its strip. */
  lemma StripCons(c: char, l: string)
    requires IsSpace(c)
    ensures Strip([c] + l) == Strip(l)
  {
    assert ([c] + l)[1..] == l;
  }

  lemma {:induction false} TrimLeftSnoc(l: string, c: char)
    ensures TrimLeft(l + [c]) == if TrimLeft(l) == [] then TrimLeft([c]) else TrimLeft(l) + [c]
  {
    if l == [] {
      assert l + [c] == [c];
    } else {
      assert (l + [c])[0] == l[0];
      assert (l + [c])[1..] == l[1..] + [c];
      if IsSpace(l[0]) {
        TrimLeftSnoc(l[1..], c);
      }
    }
  }

  /** Adding a space character at the end of a text does not change its strip. */
  lemma StripSnoc(l: string, c: char)
    requires IsSpace(c)
    ensures Strip(l + [c]) == Strip(l)
  {
    TrimLeftSnoc(l, c);
    var t := TrimLeft(l);
    if t == [] {
      assert TrimLeft([c]) == TrimLeft([c][1..]);
    } else {
      assert (t + [c])[..|t + [c]| - 1] == t;
    }
  }

  /** Text without a newline is a single piece. */
  lemma {:induction false} SplitNoNewline(s: string)
    requires '\n' !in s
    ensures Split(s) == [s]
  {
    if s != [] {
      assert '\n' !in s[1..] by {
        forall k | 0 <= k < |s[1..]| ensures s[1..][k] != '\n' { assert s[1..][k] == s[k + 1]; }
      }
      SplitNoNewline(s[1..]);
      assert [s[0]] + s[1..] == s;
    }
  }

  /** The first newline ends the first piece. */
  lemma {:induction false} SplitAtNewline(a: string, b: string)
    requires '\n' !in a
    ensures Split(a + ['\n'] + b) == [a] + Split(b)
  {
    var s := a + ['\n'] + b;
    if a == [] {
      assert s[0] == '\n' && s[1..] == b;
    } else {
      assert '\n' !in a[1..] by {
        forall k | 0 <= k < |a[1..]| ensures a[1..][k] != '\n' { assert a[1..][k] == a[k + 1]; }
      }
      SplitAtNewline(a[1..], b);
      assert s[0] == a[0] && s[1..] == a[1..] + ['\n'] + b;
      assert [a[0]] + a[1..] == a;
    }
  }
}
