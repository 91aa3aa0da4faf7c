/**
 * The email check of `register`: the pattern `^[^\s@]+@[^\s@]+\.[^\s@]+$`
 * read as a predicate, and a direct scan that decides it.
 */
module EmailFormat {
  import opened JsString

  /** A character the class `[^\s@]` accepts. */
  predicate Plain(c: char) {
    c != '@' && !IsWhitespace(c)
  }

  predicate AllPlain(s: string) {
    forall i :: 0 <= i < |s| ==> Plain(s[i])
  }

  /**
   * The pattern read off: a non-empty run of plain characters, '@', a
   * non-empty run, '.', and a non-empty run to the end. Dots are plain, so
   * the middle run may hold dots of its own.
   */
  predicate EmailPattern(s: string) {
    exists at, dot :: 0 < at && at + 1 < dot && dot + 1 < |s|
      && s[at] == '@' && s[dot] == '.'
      && AllPlain(s[..at]) && AllPlain(s[at + 1..dot]) && AllPlain(s[dot + 1..])
  }

  /** The position of the first `c` in `s`, or `|s|` when there is none. */
  function IndexOf(s: string, c: char): (i: nat)
    ensures i <= |s|
    ensures i < |s| ==> s[i] == c
    ensures c !in s[..i]
  {
    if s == [] then 0
    else if s[0] == c then 0
    else
      assert s[..1 + IndexOf(s[1..], c)] == [s[0]] + s[1..][..IndexOf(s[1..], c)];
      1 + IndexOf(s[1..], c)
  }

  /**
   * The scan: exactly one '@', not first, no whitespace anywhere, and a '.'
   * with at least one character between it and the '@' and at least one
   * after it.
   */
  function CheckEmail(s: string): (ok: bool)
    ensures ok ==> |s| >= 5 && '@' in s
    ensures ok ==> forall i :: 0 <= i < |s| ==> !IsWhitespace(s[i])
  {
    var at := IndexOf(s, '@');
    && 0 < at && at + 2 < |s|
    && '@' !in s[at + 1..]
    && (forall i :: 0 <= i < |s| ==> !IsWhitespace(s[i]))
    && '.' in s[at + 2..|s| - 1]
  }

  /** The scan accepts exactly the strings the pattern matches. */
  lemma CheckEmailMatchesPattern(s: string)
    ensures CheckEmail(s) <==> EmailPattern(s)
  {
    if CheckEmail(s) {
      CheckEmailSound(s);
    }
    if EmailPattern(s) {
      CheckEmailComplete(s);
    }
  }

  /** A string the scan accepts matches the pattern. */
  lemma CheckEmailSound(s: string)
    requires CheckEmail(s)
    ensures EmailPattern(s)
  {
    var at := IndexOf(s, '@');
    var j :| 0 <= j < |s[at + 2..|s| - 1]| && s[at + 2..|s| - 1][j] == '.';
    var dot := at + 2 + j;
    assert s[dot] == '.';
    forall i | 0 <= i < |s| && i != at ensures Plain(s[i]) {
      if i < at {
        assert s[i] in s[..at];
      } else {
        assert s[i] in s[at + 1..];
      }
    }
    assert AllPlain(s[..at]);
    assert AllPlain(s[at + 1..dot]);
    assert AllPlain(s[dot + 1..]);
  }

  /** A string the pattern matches passes the scan. */
  lemma CheckEmailComplete(s: string)
    requires EmailPattern(s)
    ensures CheckEmail(s)
  {
    var a, dot :| 0 < a && a + 1 < dot && dot + 1 < |s|
      && s[a] == '@' && s[dot] == '.'
      && AllPlain(s[..a]) && AllPlain(s[a + 1..dot]) && AllPlain(s[dot + 1..]);
    PlainOutsideAt(s, a, dot);
    assert s[a] in s[..a + 1];
    var at := IndexOf(s, '@');
    assert at == a;
    forall k | at + 1 <= k < |s| ensures s[k] != '@' {
      assert Plain(s[k]);
    }
    assert '@' !in s[at + 1..];
    assert s[at + 2..|s| - 1][dot - at - 2] == '.';
  }

  /** In a match of the pattern, every character but the '@' is plain. */
  lemma PlainOutsideAt(s: string, a: int, dot: int)
    requires 0 < a && a + 1 < dot && dot + 1 < |s| && s[dot] == '.'
    requires AllPlain(s[..a]) && AllPlain(s[a + 1..dot]) && AllPlain(s[dot + 1..])
    ensures forall i :: 0 <= i < |s| && i != a ==> Plain(s[i])
  {
    forall i | 0 <= i < |s| && i != a ensures Plain(s[i]) {
      if i < a {
        assert s[..a][i] == s[i];
      } else if i < dot {
        assert s[a + 1..dot][i - a - 1] == s[i];
      } else if i > dot {
        assert s[dot + 1..][i - dot - 1] == s[i];
      }
    }
  }
}
