/**
 * Random password and registration number generation
 * (utils/passwordGenerator.js). The random choices are supplied by the
 * caller as a `Draw`: one index per guaranteed class, one index into the
 * full charset per further character, and the order the shuffle leaves the
 * characters in.
 */
module PasswordGenerator {
  import opened Optional
  import opened JsString

  const Uppercase := "ABCDEFGHIJKLMNOPQRSTUVWXYZ"
  const Lowercase := "abcdefghijklmnopqrstuvwxyz"
  const Numbers := "0123456789"
  const Symbols := "!@#$%^&*"
  /** The 70-character charset, spelled out in the source as one literal. */
  const Charset := Uppercase + Lowercase + Numbers + Symbols
  const DefaultLength := 12

  /**
   * The outcome of the `Math.random()` calls of one generation: the class
   * indices, the fill indices, and the shuffle as a permutation of positions
   * (`order[i]` is the position before the shuffle of the character that
   * ends up at `i`).
   */
  datatype Draw = Draw(upper: nat, lower: nat, digit: nat, symbol: nat, fill: seq<nat>, order: seq<nat>)

  /** The number of characters generated: the requested length, but never fewer than four. */
  function PasswordLength(length: Option<int>): (n: nat)
    ensures n >= 4
    ensures length == None ==> n == DefaultLength
    ensures length.GetOr(DefaultLength) >= 4 ==> n == length.GetOr(DefaultLength)
    ensures length.GetOr(DefaultLength) < 4 ==> n == 4
  {
    var requested := length.GetOr(DefaultLength);
    if requested < 4 then 4 else requested
  }

  /** `order` lists every position below `n` exactly once. */
  predicate IsPermutation(order: seq<nat>, n: nat) {
    && |order| == n
    && (forall i :: 0 <= i < n ==> order[i] < n)
    && (forall i, j :: 0 <= i < j < n ==> order[i] != order[j])
  }

  /** Each index is below the length of the string it picks from. */
  predicate IndicesFit(draw: Draw) {
    && draw.upper < |Uppercase| && draw.lower < |Lowercase|
    && draw.digit < |Numbers| && draw.symbol < |Symbols|
    && forall k :: 0 <= k < |draw.fill| ==> draw.fill[k] < |Charset|
  }

  /** A draw that a call producing `n` characters can make. */
  predicate DrawFits(draw: Draw, n: nat) {
    IndicesFit(draw) && |draw.fill| + 4 == n && IsPermutation(draw.order, n)
  }

  /** The password before the shuffle: one of each class, then the fill. */
  function Unshuffled(draw: Draw): (s: string)
    requires IndicesFit(draw)
    ensures |s| == 4 + |draw.fill|
    ensures s[..4] == [Uppercase[draw.upper], Lowercase[draw.lower], Numbers[draw.digit], Symbols[draw.symbol]]
    ensures forall k :: 4 <= k < |s| ==> s[k] == Charset[draw.fill[k - 4]]
  {
    [Uppercase[draw.upper], Lowercase[draw.lower], Numbers[draw.digit], Symbols[draw.symbol]]
      + seq(|draw.fill|, k requires 0 <= k < |draw.fill| => Charset[draw.fill[k]])
  }

  /** `s` rearranged by `order`. */
  function Permute(s: string, order: seq<nat>): (r: string)
    requires IsPermutation(order, |s|)
    ensures |r| == |s|
  {
    seq(|s|, i requires 0 <= i < |s| => s[order[i]])
  }

  /**
   * `order` without the position holding its largest value `|order| - 1`:
   * the last entry takes that position's place.
   */
  function WithoutTop(order: seq<nat>, j: nat): seq<nat>
    requires j < |order|
  {
    var last := |order| - 1;
    if j == last then order[..last] else order[..last][j := order[last]]
  }

  /** Taking the top value out of a permutation leaves a permutation of the positions below it. */
  lemma WithoutTopIsPermutation(order: seq<nat>, n: nat, j: nat)
    requires IsPermutation(order, n) && j < n && order[j] == n - 1
    ensures IsPermutation(WithoutTop(order, j), n - 1)
  {
    var rest := WithoutTop(order, j);
    forall i | 0 <= i < n - 1 ensures rest[i] < n - 1 {
      if i == j { assert order[n - 1] != order[j]; } else { assert order[i] != order[j]; }
    }
    forall i, k | 0 <= i < k < n - 1 ensures rest[i] != rest[k] {
      if i == j { assert order[n - 1] != order[k]; }
      else if k == j { assert order[i] != order[n - 1]; }
    }
  }

  /** Distinct values below `m` number at most `m`. */
  lemma {:induction false} DistinctBelow(s: seq<nat>, m: nat)
    requires forall i, j :: 0 <= i < j < |s| ==> s[i] != s[j]
    requires forall i :: 0 <= i < |s| ==> s[i] < m
    ensures |s| <= m
    decreases m
  {
    if |s| > 0 {
      if m - 1 in s {
        var j :| 0 <= j < |s| && s[j] == m - 1;
        var last := |s| - 1;
        var rest := if j == last then s[..last] else s[..last][j := s[last]];
        forall i | 0 <= i < |rest| ensures rest[i] < m - 1 {
          if i != j { assert s[i] != s[j]; } else { assert s[last] != s[j]; }
        }
        forall i, k | 0 <= i < k < |rest| ensures rest[i] != rest[k] {
          if i == j { assert s[last] != s[k]; }
          else if k == j { assert s[i] != s[last]; }
        }
        DistinctBelow(rest, m - 1);
      } else {
        forall i | 0 <= i < |s| ensures s[i] < m - 1 {
          assert s[i] in s;
        }
        DistinctBelow(s, m - 1);
      }
    }
  }

  /** A permutation of the positions below `n` hits every one of them. */
  lemma {:induction false} PermutationIsOnto(order: seq<nat>, n: nat)
    requires IsPermutation(order, n)
    ensures forall v :: 0 <= v < n ==> v in order
    decreases n
  {
    if n > 0 {
      if n - 1 !in order {
        forall i | 0 <= i < n ensures order[i] < n - 1 {
          assert order[i] in order;
        }
        DistinctBelow(order, n - 1);
      }
      assert n - 1 in order;
      var j :| 0 <= j < n && order[j] == n - 1;
      var rest := WithoutTop(order, j);
      WithoutTopIsPermutation(order, n, j);
      PermutationIsOnto(rest, n - 1);
      forall v | 0 <= v < n ensures v in order {
        if v < n - 1 {
          assert v in rest;
          var k :| 0 <= k < n - 1 && rest[k] == v;
          if k == j { assert order[n - 1] == v; } else { assert order[k] == v; }
        }
      }
    }
  }

  /**
   * One step of the induction below: rearranging `s` by `order` is
   * rearranging all but its last character by `WithoutTop(order, j)`, then
   * putting the last character where the top position was.
   */
  lemma PermuteLast(s: string, order: seq<nat>, j: nat)
    requires |s| > 0 && IsPermutation(order, |s|) && j < |s| && order[j] == |s| - 1
    requires IsPermutation(WithoutTop(order, j), |s| - 1)
    ensures var n := |s|;
      var t := Permute(s[..n - 1], WithoutTop(order, j));
      if j == n - 1 then Permute(s, order) == t + [s[n - 1]]
      else t[j] == s[order[n - 1]] && Permute(s, order) == t[j := s[n - 1]] + [s[order[n - 1]]]
  {
  }

  /** Rearranging by a permutation keeps every character, as often as before. */
  lemma {:induction false} PermutePreservesMultiset(s: string, order: seq<nat>)
    requires IsPermutation(order, |s|)
    ensures multiset(Permute(s, order)) == multiset(s)
  {
    var n := |s|;
    if n > 0 {
      PermutationIsOnto(order, n);
      assert n - 1 in order;
      var j :| 0 <= j < n && order[j] == n - 1;
      var rest := WithoutTop(order, j);
      WithoutTopIsPermutation(order, n, j);
      var front := s[..n - 1];
      PermutePreservesMultiset(front, rest);
      PermuteLast(s, order, j);
      var t := Permute(front, rest);
      assert s == front + [s[n - 1]];
      if j != n - 1 {
        SwapOutLast(t, j, s[n - 1]);
      }
    }
  }

  /** Overwriting `t[j]` with `x` and appending the old `t[j]` adds `x` to the characters of `t`. */
  lemma SwapOutLast(t: string, j: nat, x: char)
    requires j < |t|
    ensures multiset(t[j := x] + [t[j]]) == multiset(t) + multiset{x}
  {
    calc {
      multiset(t[j := x] + [t[j]]);
      multiset(t[j := x]) + multiset{t[j]};
      multiset(t) - multiset{t[j]} + multiset{x} + multiset{t[j]};
    }
  }

  /** Some character of `s` belongs to the class `chars`. */
  predicate HasCharFrom(s: string, chars: string) {
    exists i :: 0 <= i < |s| && s[i] in chars
  }

  /**
   * `generateRandomPassword(length)`: one uppercase letter, one lowercase
   * letter, one digit and one symbol, then charset characters up to
   * `length`, the whole shuffled. The result has `max(length, 4)`
   * characters and is the drawn characters in the drawn order;
   * PasswordGuarantees states what that string contains.
   */
  method GenerateRandomPassword(length: Option<int>, draw: Draw) returns (password: string)
    requires DrawFits(draw, PasswordLength(length))
    ensures |password| == PasswordLength(length)
    ensures password == Permute(Unshuffled(draw), draw.order)
  {
    var target := length.GetOr(DefaultLength);
    ghost var all := Unshuffled(draw);
    var drawn := "";
    drawn := drawn + [Uppercase[draw.upper]];
    drawn := drawn + [Lowercase[draw.lower]];
    drawn := drawn + [Numbers[draw.digit]];
    drawn := drawn + [Symbols[draw.symbol]];
    assert drawn == all[..4];
    var i := 4;
    while i < target
      invariant 4 <= i <= |all|
      invariant drawn == all[..i]
    {
      assert all[..i + 1] == all[..i] + [Charset[draw.fill[i - 4]]];
      drawn := drawn + [Charset[draw.fill[i - 4]]];
      i := i + 1;
    }
    assert drawn == all;
    password := Permute(drawn, draw.order);
  }

  /**
   * A generated password is a rearrangement of the characters drawn, holds
   * at least one uppercase letter, one lowercase letter, one digit and one
   * symbol, and nothing from outside the charset.
   */
  lemma PasswordGuarantees(draw: Draw, n: nat)
    requires DrawFits(draw, n)
    ensures var password := Permute(Unshuffled(draw), draw.order);
      && multiset(password) == multiset(Unshuffled(draw))
      && HasCharFrom(password, Uppercase) && HasCharFrom(password, Lowercase)
      && HasCharFrom(password, Numbers) && HasCharFrom(password, Symbols)
      && forall i :: 0 <= i < |password| ==> password[i] in Charset
  {
    var drawn := Unshuffled(draw);
    var password := Permute(drawn, draw.order);
    PermutePreservesMultiset(drawn, draw.order);
    UnshuffledFromClasses(draw);
    forall i | 0 <= i < |password| ensures password[i] in Charset {
      assert password[i] in multiset(drawn);
    }
    assert drawn[0] in multiset(password) && drawn[1] in multiset(password);
    assert drawn[2] in multiset(password) && drawn[3] in multiset(password);
  }

  /** The characters drawn: one from each class first, and all from the charset. */
  lemma UnshuffledFromClasses(draw: Draw)
    requires IndicesFit(draw)
    ensures var s := Unshuffled(draw);
      s[0] in Uppercase && s[1] in Lowercase && s[2] in Numbers && s[3] in Symbols
      && forall c :: c in s ==> c in Charset
  {
    var s := Unshuffled(draw);
    forall c | c in s ensures c in Charset {
      var k :| 0 <= k < |s| && s[k] == c;
      if k == 0 {
        assert c in Uppercase;
      } else if k == 1 {
        assert c in Lowercase;
      } else if k == 2 {
        assert c in Numbers;
      } else if k == 3 {
        assert c in Symbols;
      }
    }
  }

  /**
   * `generateRegistrationNumber(batchNo, userId)`, with the current year
   * passed in: "REG", the year, the batch number, then the user id
   * left-padded with zeros to at least four characters.
   */
  function GenerateRegistrationNumber(batchNo: string, userId: int, year: int): (r: string)
    ensures |r| >= |RegistrationPrefix(batchNo, year)| + 4
    ensures |r| >= |RegistrationPrefix(batchNo, year)| + |IntToDecimal(userId)|
    ensures r[..|RegistrationPrefix(batchNo, year)|] == RegistrationPrefix(batchNo, year)
  {
    RegistrationPrefix(batchNo, year) + PadStart(IntToDecimal(userId), 4, '0')
  }

  /** The part of a registration number before the id: "REG", the year, the batch number. */
  function RegistrationPrefix(batchNo: string, year: int): (p: string)
    ensures |p| == 3 + |IntToDecimal(year)| + |batchNo|
    ensures p[..3] == "REG" && p[3..|p| - |batchNo|] == IntToDecimal(year) && p[|p| - |batchNo|..] == batchNo
  {
    "REG" + IntToDecimal(year) + batchNo
  }

  /**
   * A registration number is its prefix followed by the id's digits behind
   * just enough zeros to make four characters; an id of four or more digits
   * is not cut. Reading the part after the prefix back as a number gives the
   * id.
   */
  lemma RegistrationNumberLayout(batchNo: string, userId: nat, year: int)
    ensures var r := GenerateRegistrationNumber(batchNo, userId, year);
      var digits := IntToDecimal(userId);
      var width := if |digits| >= 4 then |digits| else 4;
      var head := RegistrationPrefix(batchNo, year);
      && |r| == |head| + width
      && r[..|head|] == head
      && r[|r| - |digits|..] == digits
      && (forall i :: |head| <= i < |r| - |digits| ==> r[i] == '0')
      && (forall i :: |head| <= i < |r| ==> IsDigit(r[i]))
      && DecimalValue(r[|head|..]) == userId
  {
    var head := RegistrationPrefix(batchNo, year);
    assert IntToDecimal(userId) == NatToDecimal(userId);
    assert GenerateRegistrationNumber(batchNo, userId, year) == head + PadStart(NatToDecimal(userId), 4, '0');
    PrefixedId(head, userId);
  }

  /** The layout of `head` followed by the padded id, whatever `head` is. */
  lemma PrefixedId(head: string, userId: nat)
    ensures var r := head + PadStart(NatToDecimal(userId), 4, '0');
      var digits := NatToDecimal(userId);
      && |r| == |head| + (if |digits| >= 4 then |digits| else 4)
      && r[..|head|] == head
      && r[|r| - |digits|..] == digits
      && (forall i :: |head| <= i < |r| - |digits| ==> r[i] == '0')
      && (forall i :: |head| <= i < |r| ==> IsDigit(r[i]))
      && DecimalValue(r[|head|..]) == userId
  {
    PrefixedIdShape(head, userId);
    PrefixedIdChars(head, userId);
    PrefixedIdValue(head, userId);
  }

  /** `head` comes first, the id's digits last, and the id part is at least four long. */
  lemma PrefixedIdShape(head: string, userId: nat)
    ensures var r := head + PadStart(NatToDecimal(userId), 4, '0');
      var digits := NatToDecimal(userId);
      && |r| == |head| + (if |digits| >= 4 then |digits| else 4)
      && r[..|head|] == head
      && r[|r| - |digits|..] == digits
  {
    var digits := NatToDecimal(userId);
    var padded := PadStart(digits, 4, '0');
    AppendTail(head, padded, |digits|);
  }

  /** Reading back what follows `head` gives the id. */
  lemma PrefixedIdValue(head: string, userId: nat)
    ensures DecimalValue((head + PadStart(NatToDecimal(userId), 4, '0'))[|head|..]) == userId
  {
    var padded := PadStart(NatToDecimal(userId), 4, '0');
    assert (head + padded)[|head|..] == padded;
    PaddedId(userId);
  }

  /** Every character after `head` is a digit, and those before the id's own digits are zeros. */
  lemma PrefixedIdChars(head: string, userId: nat)
    ensures var r := head + PadStart(NatToDecimal(userId), 4, '0');
      var digits := NatToDecimal(userId);
      && (forall i :: |head| <= i < |r| - |digits| ==> r[i] == '0')
      && (forall i :: |head| <= i < |r| ==> IsDigit(r[i]))
  {
    var padded := PadStart(NatToDecimal(userId), 4, '0');
    PaddedId(userId);
    forall i | |head| <= i < |head + padded| ensures (head + padded)[i] == padded[i - |head|] {
    }
  }

  /** Where the parts of `head + tail` sit. */
  lemma AppendTail(head: string, tail: string, k: nat)
    requires k <= |tail|
    ensures (head + tail)[..|head|] == head && (head + tail)[|head|..] == tail
    ensures (head + tail)[|head + tail| - k..] == tail[|tail| - k..]
  {
  }

  /** The id part: its digits behind zeros, at least four characters, reading back as the id. */
  lemma PaddedId(userId: nat)
    ensures var digits := NatToDecimal(userId);
      var padded := PadStart(digits, 4, '0');
      && |padded| == (if |digits| >= 4 then |digits| else 4)
      && padded[|padded| - |digits|..] == digits
      && (forall i :: 0 <= i < |padded| - |digits| ==> padded[i] == '0')
      && (forall i :: 0 <= i < |padded| ==> IsDigit(padded[i]))
      && DecimalValue(padded) == userId
  {
    var digits := NatToDecimal(userId);
    var padded := PadStart(digits, 4, '0');
    var zeros := padded[..|padded| - |digits|];
    assert padded == zeros + digits;
    LeadingZerosIgnored(zeros, digits);
    DecimalRoundTrip(userId);
  }
}
