/** The line-break unescaping applied to every command line argument after the
    command name. */
module Utils {
  import opened PyValues

  /** A backslash followed by the letter `n` starts at position `i` of `s`. */
  predicate EscapeAt(s: string, i: int) {
    0 <= i && i + 1 < |s| && s[i] == '\\' && s[i + 1] == 'n'
  }

  /** `s` still holds the two-character escape for a newline somewhere. */
  predicate HasEscapedNewline(s: string) {
    exists i :: 0 <= i < |s| && EscapeAt(s, i)
  }

  /** `text.replace('\\n', '\n')`: occurrences are replaced left to right and
      never overlap. */
  function Unescape(s: string): string {
    if |s| < 2 then s
    else if EscapeAt(s, 0) then ['\n'] + Unescape(s[2..])
    else [s[0]] + Unescape(s[1..])
  }

  /** `process_line_breaks`: None stays None, text is unescaped. */
  function ProcessLineBreaks(text: Option<string>): (r: Option<string>)
    ensures text.None? ==> r.None?
    ensures text.Some? ==> r.Some? && !HasEscapedNewline(r.value)
    ensures text.Some? ==> |r.value| == |text.value| - Occurrences(text.value)
  {
    match text
    case None => None
    case Some(t) =>
      UnescapeLeavesNoEscape(t);
      UnescapeLength(t);
      Some(Unescape(t))
  }

  /** The number of positions at which the escape starts. */
  function Occurrences(s: string): nat {
    if |s| < 2 then 0 else (if EscapeAt(s, 0) then 1 else 0) + Occurrences(s[1..])
  }

  /** Each replacement turns two characters into one. */
  lemma {:induction false} UnescapeLength(s: string)
    ensures |Unescape(s)| == |s| - Occurrences(s)
  {
    if |s| >= 2 {
      if EscapeAt(s, 0) {
        UnescapeLength(s[2..]);
        assert s[1..][1..] == s[2..];
        assert !EscapeAt(s[1..], 0);
      } else {
        UnescapeLength(s[1..]);
      }
    }
  }

  /** Text without the escape comes back unchanged. */
  lemma {:induction false} UnescapeIdentity(s: string)
    requires !HasEscapedNewline(s)
    ensures Unescape(s) == s
  {
    if |s| >= 2 {
      assert !EscapeAt(s, 0);
      assert forall i :: 0 <= i < |s[1..]| && EscapeAt(s[1..], i) ==> EscapeAt(s, i + 1);
      UnescapeIdentity(s[1..]);
    }
  }

  /** The first output character: a newline for an escape, else the first input character. */
  lemma UnescapeHead(s: string)
    requires |s| > 0
    ensures |Unescape(s)| > 0
    ensures Unescape(s)[0] == if EscapeAt(s, 0) then '\n' else s[0]
  {
  }

  /** No escape survives: a copied backslash is never followed by an `n`. */
  lemma {:induction false} UnescapeLeavesNoEscape(s: string)
    ensures !HasEscapedNewline(Unescape(s))
  {
    if |s| >= 2 {
      var r := Unescape(s);
      if EscapeAt(s, 0) {
        var rest := Unescape(s[2..]);
        UnescapeLeavesNoEscape(s[2..]);
        assert r == ['\n'] + rest;
        forall i | 0 <= i < |r| ensures !EscapeAt(r, i) {
          if i > 0 {
            assert !EscapeAt(rest, i - 1);
          }
        }
      } else {
        var rest := Unescape(s[1..]);
        UnescapeLeavesNoEscape(s[1..]);
        UnescapeHead(s[1..]);
        assert r == [s[0]] + rest;
        forall i | 0 <= i < |r| ensures !EscapeAt(r, i) {
          if i > 0 {
            assert !EscapeAt(rest, i - 1);
          }
        }
      }
    }
  }

  /** Applying `process_line_breaks` twice is the same as applying it once. */
  lemma ProcessLineBreaksIdempotent(text: Option<string>)
    ensures ProcessLineBreaks(ProcessLineBreaks(text)) == ProcessLineBreaks(text)
  {
    if text.Some? {
      UnescapeLeavesNoEscape(text.value);
      UnescapeIdentity(Unescape(text.value));
    }
  }

  /** Writes every newline as the two-character escape. */
  function Escape(s: string): string {
    if s == [] then [] else (if s[0] == '\n' then ['\\', 'n'] else [s[0]]) + Escape(s[1..])
  }

  /** Unescaping inverts escaping for text that holds no backslash of its own. */
  lemma {:induction false} UnescapeInvertsEscape(s: string)
    requires '\\' !in s
    ensures Unescape(Escape(s)) == s
  {
    if s != [] {
      var rest := Escape(s[1..]);
      assert '\\' !in s[1..] by {
        forall k | 0 <= k < |s[1..]| ensures s[1..][k] != '\\' {
          assert s[1..][k] == s[k + 1];
        }
      }
      UnescapeInvertsEscape(s[1..]);
      if s[0] == '\n' {
        var e := ['\\', 'n'] + rest;
        assert EscapeAt(e, 0) && e[2..] == rest;
      } else {
        var e := [s[0]] + rest;
        assert e[1..] == rest;
        if |e| >= 2 {
          assert !EscapeAt(e, 0);
        }
      }
    }
  }
}
