// Snapshot file names of scripts/claude-recover.py and the order in which the store sorts them.

module SnapshotNames {

  // A snapshot is named after the whole second it was taken in; a suffix separates snapshots of one second.
  datatype Name = Name(second: nat, suffix: nat)

  predicate Older(a: Name, b: Name) {
    a.second < b.second || (a.second == b.second && a.suffix < b.suffix)
  }

  // ---- The file names themselves, compared as strings ----

  predicate Before(a: string, b: string) {
    |b| > 0 && (|a| == 0 || a[0] < b[0] || (a[0] == b[0] && Before(a[1..], b[1..])))
  }

  function Digits(n: nat): string {
    if n < 10 then [Digit(n)] else Digits(n / 10) + [Digit(n % 10)]
  }

  function Digit(n: nat): char
    requires n < 10
  {
    '0' + n as char
  }

  function Padded(n: nat): string {
    if n < 10 then "0" + Digits(n) else Digits(n)
  }

  function FileName(stamp: string, suffix: nat): string {
    stamp + Ending(suffix)
  }

  function Ending(suffix: nat): string {
    (if suffix == 0 then "" else "~" + Padded(suffix)) + ".json"
  }

  lemma {:induction false} BeforeCommonPrefix(p: string, a: string, b: string)
    ensures Before(p + a, p + b) == Before(a, b)
  {
    if p == [] {
      assert p + a == a && p + b == b;
    } else {
      assert (p + a)[1..] == p[1..] + a && (p + b)[1..] == p[1..] + b;
      BeforeCommonPrefix(p[1..], a, b);
    }
  }

  lemma {:induction false} BeforeDecidedByStamp(s: string, t: string, a: string, b: string)
    requires |s| == |t| && s != t
    ensures Before(s + a, t + b) == Before(s, t)
  {
    assert (s + a)[0] == s[0] && (t + b)[0] == t[0];
    if s[0] == t[0] {
      assert (s + a)[1..] == s[1..] + a && (t + b)[1..] == t[1..] + b;
      assert s == [s[0]] + s[1..] && t == [t[0]] + t[1..];
      BeforeDecidedByStamp(s[1..], t[1..], a, b);
    }
  }

  lemma PaddedPair(n: nat)
    requires n <= 99
    ensures Padded(n) == [Digit(n / 10), Digit(n % 10)]
  {
    if n < 10 {
      assert Padded(n) == "0" + [Digit(n)];
      assert Digit(n / 10) == '0' && n % 10 == n;
    } else {
      assert Digits(n / 10) == [Digit(n / 10)];
    }
  }

  lemma EndingOrder(m: nat, n: nat)
    requires m <= 99 && n <= 99
    ensures Before(Ending(m), Ending(n)) == (m < n)
  {
    PaddedPair(m);
    PaddedPair(n);
    var a, b := Ending(m), Ending(n);
    if m > 0 { assert a == ['~', Digit(m / 10), Digit(m % 10)] + ".json"; }
    if n > 0 { assert b == ['~', Digit(n / 10), Digit(n % 10)] + ".json"; }
    if m == 0 || n == 0 {
      assert "."[0] < '~';
      if m == n {
        BeforeCommonPrefix(".json", "", "");
        assert ".json" + "" == ".json" == a;
      }
    } else if m / 10 == n / 10 {
      var p := ['~', Digit(m / 10)];
      assert a == p + ([Digit(m % 10)] + ".json") && b == p + ([Digit(n % 10)] + ".json");
      BeforeCommonPrefix(p, [Digit(m % 10)] + ".json", [Digit(n % 10)] + ".json");
      if m == n {
        BeforeCommonPrefix([Digit(m % 10)] + ".json", "", "");
        assert [Digit(m % 10)] + ".json" + "" == [Digit(m % 10)] + ".json";
      }
    } else {
      assert a == "~" + a[1..] && b == "~" + b[1..];
      BeforeCommonPrefix("~", a[1..], b[1..]);
    }
  }

  // For time stamps of one width and two-digit suffixes, sorting file names is sorting names.
  lemma FileNameOrder(s: string, t: string, m: nat, n: nat)
    requires |s| == |t| && m <= 99 && n <= 99
    ensures Before(FileName(s, m), FileName(t, n)) <==> Before(s, t) || (s == t && m < n)
  {
    if s == t {
      BeforeCommonPrefix(s, Ending(m), Ending(n));
      EndingOrder(m, n);
      BeforeCommonPrefix(s, "", "");
      assert s + "" == s;
    } else {
      BeforeDecidedByStamp(s, t, Ending(m), Ending(n));
    }
  }

  // A third digit would break that order.
  lemma ThreeDigitSuffixSortsEarly(s: string)
    ensures Before(FileName(s, 100), FileName(s, 99))
  {
    BeforeCommonPrefix(s, Ending(100), Ending(99));
    assert Digits(100) == Digits(10) + ['0'] && Digits(10) == Digits(1) + ['0'];
    assert Ending(100) == "~100.json" && Ending(99) == "~99.json";
    BeforeCommonPrefix("~", "100.json", "99.json");
    assert "~" + "100.json" == "~100.json" && "~" + "99.json" == "~99.json";
  }
}
