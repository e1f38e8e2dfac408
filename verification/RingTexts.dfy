/** The texts that virtual nodes of a consistent hash are named by, and the circle their hashes lie
    on, told from the characters. */
module RingTexts {
  // ----- numbers in digits -----------------------------------------------------------------

  predicate AllDigits(s: string) {
    forall i :: 0 <= i < |s| ==> '0' <= s[i] <= '9'
  }

  /** The number a digit string stands for. */
  function Value(s: string): int {
    if s == [] then 0 else Value(s[..|s| - 1]) * 10 + (s[|s| - 1] as int - '0' as int)
  }

  /** Number i in at least three digits, with no zeros in front but to make up the three. */
  ghost predicate Written(d: string, i: nat) {
    |d| >= 3 && AllDigits(d) && Value(d) == i && (|d| > 3 ==> d[0] != '0')
  }

  function Power10(n: nat): nat {
    if n == 0 then 1 else 10 * Power10(n - 1)
  }

  lemma {:induction false} ValueBelow(s: string)
    requires AllDigits(s)
    ensures 0 <= Value(s) < Power10(|s|)
  {
    if s != [] {
      ValueBelow(s[..|s| - 1]);
    }
  }

  lemma {:induction false} ValueAbove(s: string)
    requires AllDigits(s) && s != [] && s[0] != '0'
    ensures Value(s) >= Power10(|s| - 1)
  {
    if |s| > 1 {
      ValueAbove(s[..|s| - 1]);
    } else {
      assert s[..0] == [];
    }
  }

  lemma {:induction false} PowersGrow(m: nat, n: nat)
    requires m <= n
    ensures Power10(m) <= Power10(n)
  {
    if m < n {
      PowersGrow(m, n - 1);
    }
  }

  lemma {:induction false} SameLengthOnce(a: string, b: string)
    requires AllDigits(a) && AllDigits(b) && |a| == |b| && Value(a) == Value(b)
    ensures a == b
  {
    if a != [] {
      var m := |a| - 1;
      assert Value(a) / 10 == Value(a[..m]) && Value(b) / 10 == Value(b[..m]);
      SameLengthOnce(a[..m], b[..m]);
      assert a == a[..m] + [a[m]] && b == b[..m] + [b[m]];
    }
  }

  lemma LongerIsMore(a: string, i: nat, b: string, j: nat)
    requires Written(a, i) && Written(b, j) && |a| < |b|
    ensures i < j
  {
    ValueBelow(a);
    ValueAbove(b);
    PowersGrow(|a|, |b| - 1);
  }

  /** A number is written in one way. */
  lemma WrittenOnce(a: string, b: string, i: nat)
    requires Written(a, i) && Written(b, i)
    ensures a == b
  {
    if |a| < |b| {
      LongerIsMore(a, i, b, i);
    } else if |b| < |a| {
      LongerIsMore(b, i, a, i);
    } else {
      SameLengthOnce(a, b);
    }
  }

  // ----- the order of texts, and of points on the circle -----------------------------------

  /** Alphabetically: the first difference decides, or the shorter text comes first. */
  ghost predicate Earlier(a: string, b: string) {
    exists k :: 0 <= k <= |a| && k < |b| && a[..k] == b[..k] && (k == |a| || a[k] < b[k])
  }

  /** A walk from key upwards, and around from 0, meets hash h, with text x, no later than hash g,
      with text y. */
  ghost predicate NoLater(key: nat, h: nat, x: string, g: nat, y: string) {
    if key <= h && g < key then true
    else if h < key && key <= g then false
    else h < g || (h == g && (x == y || Earlier(x, y)))
  }
}
