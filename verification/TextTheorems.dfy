/** What stripping, lower-casing and picking digits leave of a text. */
module TextTheorems {
  import opened Prelude
  import opened Text
  import opened LeadImport

  ghost predicate AllBlank(s: string) {
    forall c :: c in s ==> IsBlank(c)
  }

  lemma {:induction false} LeftBlanks(s: string) returns (front: string)
    ensures AllBlank(front) && s == front + StripLeft(s)
    ensures StripLeft(s) != "" ==> !IsBlank(StripLeft(s)[0])
  {
    front := "";
    if s != "" && IsBlank(s[0]) {
      var rest := LeftBlanks(s[1..]);
      front := [s[0]] + rest;
      assert s == [s[0]] + s[1..];
    }
  }

  lemma {:induction false} RightBlanks(s: string) returns (back: string)
    ensures AllBlank(back) && s == StripRight(s) + back
    ensures StripRight(s) != "" ==> !IsBlank(StripRight(s)[|StripRight(s)| - 1])
  {
    back := "";
    if s != "" && IsBlank(s[|s| - 1]) {
      var rest := RightBlanks(s[..|s| - 1]);
      back := rest + [s[|s| - 1]];
      assert s == s[..|s| - 1] + [s[|s| - 1]];
    }
  }

  /** Stripping takes off blanks at both ends, all of them and nothing else. */
  lemma StripExactly(s: string) returns (front: string, back: string)
    ensures AllBlank(front) && AllBlank(back) && s == front + Strip(s) + back
    ensures Strip(s) != "" ==> !IsBlank(Strip(s)[0]) && !IsBlank(Strip(s)[|Strip(s)| - 1])
  {
    front := LeftBlanks(s);
    back := RightBlanks(StripLeft(s));
    if Strip(s) != "" { assert StripLeft(s)[0] == Strip(s)[0]; }
  }

  /** Lower-casing changes each capital letter into its small one and nothing else. */
  lemma LowerExactly(s: string, i: nat)
    requires i < |s|
    ensures |Lower(s)| == |s| && Lower(Lower(s)) == Lower(s)
    ensures 'A' <= s[i] <= 'Z' ==> Lower(s)[i] - 'a' == s[i] - 'A'
    ensures !('A' <= s[i] <= 'Z') ==> Lower(s)[i] == s[i]
  {
    forall k | 0 <= k < |s| ensures Lower(Lower(s))[k] == Lower(s)[k] {}
  }

  lemma {:induction false} DigitsOfBoth(a: string, b: string)
    ensures Digits(a + b) == Digits(a) + Digits(b)
  {
    if a == "" {
      assert a + b == b;
    } else {
      DigitsOfBoth(a[1..], b);
      assert (a + b)[1..] == a[1..] + b;
    }
  }

  lemma {:induction false} NoDigits(s: string)
    requires forall c :: c in s ==> !IsDigit(c)
    ensures Digits(s) == ""
  {
    if s != "" { NoDigits(s[1..]); }
  }

  /** A phone is accepted exactly if its digits, whatever stands between them, are ten, or eleven that
      begin with 1; the normalized phone is those digits behind one 1. */
  lemma NormalizeExactly(raw: string, p: string)
    ensures NormalizeUsPhone(raw) == Some(p) <==>
      |p| == 11 && p[0] == '1' && (Digits(raw) == p || Digits(raw) == p[1..])
  {
    var front, back := StripExactly(raw);
    var text := Strip(raw);
    DigitsOfBoth(front + text, back);
    DigitsOfBoth(front, text);
    NoDigits(front);
    NoDigits(back);
    assert Digits(raw) == Digits(text);
    if text != "" && text[0] == '+' {
      assert text == "+" + text[1..];
      DigitsOfBoth("+", text[1..]);
      NoDigits("+");
    }
    if |Digits(raw)| == 10 { assert ("1" + Digits(raw))[1..] == Digits(raw); }
    if |p| == 11 && p[0] == '1' { assert p == "1" + p[1..]; }
  }
}
