/** The general helpers `isEmpty` and `sanitize` (utils/helpers.js). */
module Helpers {
  import opened Json
  import opened JsString

  /**
   * `isEmpty(value)`: null, undefined, a string that trims to nothing, an
   * empty array, or an object with no own keys.
   */
  function IsEmpty(value: Value): (r: bool)
    ensures value.Null? || value.Undefined? ==> r
    ensures value.Str? ==> (r <==> IsBlank(value.s))
    ensures value.Arr? ==> (r <==> value.items == [])
    ensures value.Obj? ==> (r <==> value.fields == map[])
    ensures value.Num? || value.Bool? ==> !r
  {
    if value.Str? then TrimEmptyIffBlank(value.s); IsEmptyBody(value)
    else IsEmptyBody(value)
  }

  /** The boolean expression of `isEmpty`, clause by clause. */
  predicate IsEmptyBody(value: Value) {
    || value.Null?
    || value.Undefined?
    || (value.Str? && Trim(value.s) == "")
    || (value.Arr? && |value.items| == 0)
    || (IsObjectType(value) && KeyCount(value) == 0)
  }

  predicate IsAngle(c: char) {
    c == '<' || c == '>'
  }

  /** `s.replace(/[<>]/g, '')`: `s` with every angle bracket deleted. */
  function StripAngles(s: string): (r: string)
    ensures |r| <= |s|
    ensures forall i :: 0 <= i < |r| ==> !IsAngle(r[i])
    ensures forall c :: !IsAngle(c) ==> multiset(r)[c] == multiset(s)[c]
    ensures |s| == 1 ==> r == if IsAngle(s[0]) then [] else s
  {
    if s == [] then []
    else if IsAngle(s[0]) then
      assert s == [s[0]] + s[1..];
      StripAngles(s[1..])
    else
      assert s == [s[0]] + s[1..];
      [s[0]] + StripAngles(s[1..])
  }

  /**
   * Deleting angle brackets works piece by piece and keeps the order: with
   * the one-character case of `StripAngles`, this fixes the result as the
   * characters of `s` other than '<' and '>', in their original order.
   */
  lemma {:induction false} StripAnglesAppend(a: string, b: string)
    ensures StripAngles(a + b) == StripAngles(a) + StripAngles(b)
  {
    if a == [] {
      assert a + b == b;
    } else {
      assert (a + b)[0] == a[0] && (a + b)[1..] == a[1..] + b;
      StripAnglesAppend(a[1..], b);
    }
  }

  /** A string without angle brackets passes `StripAngles` unchanged. */
  lemma {:induction false} StripAnglesNoop(s: string)
    requires forall i :: 0 <= i < |s| ==> !IsAngle(s[i])
    ensures StripAngles(s) == s
  {
    if s != [] {
      StripAnglesNoop(s[1..]);
    }
  }

  /**
   * `sanitize(value)`: non-strings pass unchanged; a string is trimmed and
   * then loses every '<' and '>'.
   */
  function Sanitize(value: Value): (r: Value)
    ensures !value.Str? ==> r == value
    ensures value.Str? ==> r.Str? && |r.s| <= |value.s|
    ensures value.Str? ==> forall i :: 0 <= i < |r.s| ==> !IsAngle(r.s[i])
    ensures value.Str? ==> r == Str(StripAngles(Trim(value.s)))
  {
    if !value.Str? then value else Str(StripAngles(Trim(value.s)))
  }

  /**
   * Sanitizing is not idempotent: deleting '<' can expose whitespace that the
   * first trim did not see.
   */
  lemma SanitizeNotIdempotent()
    ensures Sanitize(Str("< a")) == Str(" a")
    ensures Sanitize(Sanitize(Str("< a"))) == Str("a")
  {
    StripSample();
    TrimSample();
  }

  /** The angle-bracket step on the strings of `SanitizeNotIdempotent`. */
  lemma StripSample()
    ensures StripAngles("< a") == " a" && StripAngles("a") == "a"
  {
    var s, t, u := "< a", " a", "a";
    assert s == ['<'] + t && t == [' '] + u && u == ['a'] + [];
    assert StripAngles(u) == u;
    assert StripAngles(t) == t;
  }

  /** The trimming step on the strings of `SanitizeNotIdempotent`. */
  lemma TrimSample()
    ensures Trim("< a") == "< a" && Trim(" a") == "a"
  {
    var s, t, u := "< a", " a", "a";
    assert t == [' '] + u;
    TrimKeeps(s);
    TrimKeeps(u);
    assert TrimStart(t) == u by {
      assert TrimStart(u) == u;
    }
    assert TrimEnd(u) == u;
  }

  /** On a string without angle brackets, sanitizing a second time changes nothing. */
  lemma SanitizeIdempotentWithoutAngles(s: string)
    requires forall i :: 0 <= i < |s| ==> !IsAngle(s[i])
    ensures Sanitize(Sanitize(Str(s))) == Sanitize(Str(s))
  {
    var t := Trim(s);
    assert forall i :: 0 <= i < |t| ==> !IsAngle(t[i]) by {
      forall i | 0 <= i < |t| ensures !IsAngle(t[i]) {
        assert t[i] == s[LeadingBlanks(s) + i];
      }
    }
    StripAnglesNoop(t);
    TrimIdempotent(s);
  }
}
