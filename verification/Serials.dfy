/**
 Serial node names: printing a name from the DO_NAMES template, reading the serial back, and
 choosing the next serial. A template has its `{serial}` in the first label:
 `prefix{serial}tail` followed by a domain that is empty or starts with a dot.
 */
module Serials {
  import opened Common

  datatype Template = Template(prefix: string, tail: string, domain: string)

  predicate Proper(t: Template) {
    '.' !in t.prefix && '.' !in t.tail && (t.domain == "" || t.domain[0] == '.')
  }

  // ---- Decimal numerals ----

  predicate IsDigit(c: char) {
    '0' <= c <= '9'
  }

  predicate AllDigits(s: string) {
    forall i :: 0 <= i < |s| ==> IsDigit(s[i])
  }

  function DigitOf(n: nat): (c: char)
    requires n < 10
    ensures c as int == '0' as int + n
  {
    "0123456789"[n]
  }

  function Dec(n: nat): (r: string)
    ensures r != ""
  {
    if n < 10 then [DigitOf(n)] else Dec(n / 10) + [DigitOf(n % 10)]
  }

  function Value(s: string): nat
    requires AllDigits(s)
  {
    if s == "" then 0 else 10 * Value(s[..|s| - 1]) + (s[|s| - 1] as int - '0' as int)
  }

  lemma ValueSnoc(s: string, k: nat)
    requires AllDigits(s) && k < 10
    ensures AllDigits(s + [DigitOf(k)]) && Value(s + [DigitOf(k)]) == 10 * Value(s) + k
  {
    assert (s + [DigitOf(k)])[..|s|] == s;
  }

  lemma {:induction false} DecIsNumeral(n: nat)
    ensures AllDigits(Dec(n)) && Value(Dec(n)) == n
    ensures Dec(n)[0] == '0' ==> n == 0 && Dec(n) == "0"
  {
    hide Value, AllDigits;
    if n < 10 {
      NoDigits();
      ValueSnoc("", n);
      assert "" + [DigitOf(n)] == Dec(n);
    } else {
      DecIsNumeral(n / 10);
      ValueSnoc(Dec(n / 10), n % 10);
    }
  }

  /** The value of a numeral is its decimal reading. */
  lemma ValueReads(s: string, c: char)
    requires AllDigits(s) && '0' <= c <= '9'
    ensures AllDigits(s + [c]) && Value(s + [c]) == 10 * Value(s) + (c as int - '0' as int)
    ensures Value("") == 0
  {
    assert (s + [c])[..|s|] == s;
  }

  lemma NoDigits()
    ensures AllDigits("") && Value("") == 0
  {
  }

  function Pow10(k: nat): nat {
    if k == 0 then 1 else 10 * Pow10(k - 1)
  }

  lemma {:induction false} Pow10Positive(k: nat)
    ensures Pow10(k) >= 1
  {
    if k > 0 { Pow10Positive(k - 1); }
  }

  lemma TenTimes(a: nat, p: nat, v: nat)
    ensures 10 * (a * p + v) == a * (10 * p) + 10 * v
  {
  }

  lemma {:induction false} ValueConcat(a: string, b: string)
    requires AllDigits(a) && AllDigits(b)
    ensures AllDigits(a + b) && Value(a + b) == Value(a) * Pow10(|b|) + Value(b)
  {
    if b == "" {
      assert a + b == a;
    } else {
      var init := b[..|b| - 1];
      assert (a + b)[..|a + b| - 1] == a + init;
      ValueConcat(a, init);
      TenTimes(Value(a), Pow10(|init|), Value(init));
    }
  }

  // ---- Printing and parsing ----

  /** `template.format(serial=n)`. */
  function Print(t: Template, n: nat): string {
    t.prefix + Dec(n) + (t.tail + t.domain)
  }

  /** What stands between prefix and suffix, if that is a numeral. */
  function Between(s: string, prefix: string, suffix: string): Option<string> {
    if |s| > |prefix| + |suffix| && prefix <= s && s[|s| - |suffix|..] == suffix
       && AllDigits(s[|prefix|..|s| - |suffix|])
    then Some(s[|prefix|..|s| - |suffix|]) else None
  }

  /** The expression that `_regex_from_template` builds: a suffix that starts with a dot may be absent. */
  function Parse(t: Template, s: string): Option<nat> {
    var suffix := t.tail + t.domain;
    match Between(s, t.prefix, suffix)
    case Some(d) => ValueOf(d)
    case None =>
      if suffix != "" && suffix[0] == '.' then
        match Between(s, t.prefix, "") case Some(d) => ValueOf(d) case None => None
      else None
  }

  function ValueOf(d: string): Option<nat> {
    if AllDigits(d) then Some(Value(d)) else None
  }

  lemma BetweenFinds(prefix: string, d: string, suffix: string)
    requires d != "" && AllDigits(d)
    ensures Between(prefix + d + suffix, prefix, suffix) == Some(d)
  {
    var s := prefix + d + suffix;
    assert s[|prefix|..|s| - |suffix|] == d;
    assert s[|s| - |suffix|..] == suffix;
  }

  lemma BetweenOnly(s: string, prefix: string, suffix: string)
    requires Between(s, prefix, suffix).Some?
    ensures var d := Between(s, prefix, suffix).value; d != "" && AllDigits(d) && s == prefix + d + suffix
  {
  }

  /** Parsing accepts exactly prefix, numeral, suffix, or the same without a suffix that starts with a dot. */
  lemma ParseAccepts(t: Template, s: string, n: nat)
    ensures Parse(t, s) == Some(n) <==>
      exists d :: d != "" && AllDigits(d) && Value(d) == n && Spells(t, s, d)
  {
    var suffix := t.tail + t.domain;
    if Parse(t, s) == Some(n) {
      if Between(s, t.prefix, suffix).Some? {
        BetweenOnly(s, t.prefix, suffix);
        assert Spells(t, s, Between(s, t.prefix, suffix).value);
      } else {
        BetweenOnly(s, t.prefix, "");
        var d := Between(s, t.prefix, "").value;
        assert s == t.prefix + d;
        assert Spells(t, s, d);
      }
    }
    if d :| d != "" && AllDigits(d) && Value(d) == n && Spells(t, s, d) {
      if s == t.prefix + d + suffix {
        BetweenFinds(t.prefix, d, suffix);
      } else {
        assert s == t.prefix + d + "";
        BetweenFinds(t.prefix, d, "");
        NoDotNoSuffix(s, t.prefix, suffix, d);
      }
    }
  }

  predicate Spells(t: Template, s: string, d: string) {
    var suffix := t.tail + t.domain;
    s == t.prefix + d + suffix || (suffix != "" && suffix[0] == '.' && s == t.prefix + d)
  }

  /** A numeral after the prefix leaves no room for a suffix that starts with a dot. */
  lemma NoDotNoSuffix(s: string, prefix: string, suffix: string, d: string)
    requires s == prefix + d && AllDigits(d) && suffix != "" && suffix[0] == '.'
    ensures Between(s, prefix, suffix).None?
  {
    var k := |s| - |suffix|;
    if k > |prefix| {
      assert s[k] == d[k - |prefix|];
      assert s[k..][0] == s[k] && IsDigit(s[k]);
    }
  }

  lemma ShortOfPrint(t: Template, n: nat)
    requires Proper(t)
    ensures Short(Print(t, n)) == t.prefix + Dec(n) + t.tail
  {
    DecIsNumeral(n);
    var first := t.prefix + Dec(n) + t.tail;
    assert Print(t, n) == first + t.domain;
    ShortIs(Print(t, n), first);
  }

  /** A printed name gives its serial back. */
  lemma FullNameRoundTrip(t: Template, n: nat)
    ensures Parse(t, Print(t, n)) == Some(n)
  {
    DecIsNumeral(n);
    BetweenFinds(t.prefix, Dec(n), t.tail + t.domain);
  }

  /** Its short form does so exactly when the serial ends the label or there is no domain to lose. */
  lemma ShortNameRoundTrip(t: Template, n: nat)
    requires Proper(t)
    ensures Parse(t, Short(Print(t, n))) == Some(n) <==> t.tail == "" || t.domain == ""
    ensures t.tail != "" && t.domain != "" ==> Parse(t, Short(Print(t, n))) == None
  {
    var d, s := Dec(n), Short(Print(t, n));
    DecIsNumeral(n);
    ShortOfPrint(t, n);
    if t.domain == "" {
      assert t.tail + t.domain == t.tail;
      FullNameRoundTrip(t, n);
      assert s == Print(t, n);
    } else if t.tail == "" {
      assert t.tail + t.domain == t.domain;
      assert s == t.prefix + d;
      assert s == t.prefix + d + "";
      NoDotNoSuffix(s, t.prefix, t.domain, d);
      BetweenFinds(t.prefix, d, "");
    } else {
      NoDotted(s, t.prefix, t.tail + t.domain, |t.tail|);
    }
  }

  lemma NoDotted(s: string, prefix: string, suffix: string, k: nat)
    requires '.' !in s && k < |suffix| && suffix[k] == '.'
    ensures Between(s, prefix, suffix).None?
  {
    if |s| > |prefix| + |suffix| {
      var i := |s| - |suffix| + k;
      assert s[i] in s;
      assert s[|s| - |suffix|..][k] == s[i];
    }
  }

  // ---- The other reader: trailing digits of the short name ----

  function TrailingDigits(s: string): (r: string)
    ensures AllDigits(r)
  {
    if s == "" || !IsDigit(s[|s| - 1]) then "" else TrailingDigits(s[..|s| - 1]) + [s[|s| - 1]]
  }

  /** They end the string, and no longer run of digits does. */
  lemma {:induction false} TrailingIsLongest(s: string)
    ensures var r := TrailingDigits(s);
      && |r| <= |s|
      && s[|s| - |r|..] == r
      && (|r| < |s| ==> !IsDigit(s[|s| - |r| - 1]))
  {
    if s != "" && IsDigit(s[|s| - 1]) {
      TrailingIsLongest(s[..|s| - 1]);
    }
  }

  /** `_extract_serial`. */
  function ExtractSerial(hostname: string): Option<nat> {
    var d := TrailingDigits(Short(hostname));
    if d == "" then None else Some(Value(d))
  }

  /** No trailing digit, no serial; otherwise the value of the longest run of digits that ends the short name. */
  lemma ExtractReads(hostname: string)
    ensures var short := Short(hostname);
      match ExtractSerial(hostname)
      case None => short == "" || !('0' <= short[|short| - 1] <= '9')
      case Some(n) => exists k: nat :: EndsInSerial(short, k, n)
  {
    var short := Short(hostname);
    TrailingIsLongest(short);
    if ExtractSerial(hostname).Some? {
      assert EndsInSerial(short, |short| - |TrailingDigits(short)|, ExtractSerial(hostname).value);
    }
  }

  /** From place k on the name consists of digits worth n, and what precedes does not end in a digit. */
  ghost predicate EndsInSerial(short: string, k: nat, n: nat) {
    && k < |short| && AllDigits(short[k..]) && Value(short[k..]) == n
    && (k > 0 ==> !('0' <= short[k - 1] <= '9'))
  }

  lemma TrailingSnoc(s: string, c: char)
    requires IsDigit(c)
    ensures TrailingDigits(s + [c]) == TrailingDigits(s) + [c]
  {
    assert (s + [c])[..|s|] == s;
  }

  lemma {:induction false} TrailingConcat(a: string, d: string)
    requires AllDigits(d)
    ensures TrailingDigits(a + d) == TrailingDigits(a) + d
  {
    hide TrailingDigits;
    if d == "" {
      assert a + d == a;
    } else {
      var init, last := d[..|d| - 1], d[|d| - 1];
      TrailingConcat(a, init);
      TrailingSnoc(a + init, last);
      assert a + d == a + init + [last];
      assert TrailingDigits(a) + d == TrailingDigits(a) + init + [last];
    }
  }

  /**
   With the serial last in the label, the two readers agree exactly when the digits that end the
   prefix, if any, are all zeros; in particular when the prefix does not end in a digit.
   */
  lemma ExtractAgrees(t: Template, n: nat)
    requires Proper(t) && t.tail == ""
    ensures ExtractSerial(Print(t, n)) == Some(n) <==> Value(TrailingDigits(t.prefix)) == 0
    ensures t.prefix == "" || !IsDigit(t.prefix[|t.prefix| - 1]) ==> ExtractSerial(Print(t, n)) == Some(n)
  {
    DecIsNumeral(n);
    ShortOfPrint(t, n);
    assert Short(Print(t, n)) == t.prefix + Dec(n);
    TrailingConcat(t.prefix, Dec(n));
    var a := TrailingDigits(t.prefix);
    ValueConcat(a, Dec(n));
    Pow10Positive(|Dec(n)|);
    ScaledZero(Value(a), Pow10(|Dec(n)|));
  }

  lemma ScaledZero(a: nat, p: nat)
    requires p >= 1
    ensures a * p == 0 <==> a == 0
  {
  }

  // ---- The next serial ----

  /** `name_template.split(".")[0].format(serial="")`. */
  function ShortPrefix(t: Template): string {
    t.prefix + t.tail
  }

  /** The serial a listed node counts for, or 0. */
  function Counted(hostname: string, shortPrefix: string): nat {
    var short := Short(hostname);
    if shortPrefix <= short && short != shortPrefix && AllDigits(short[|shortPrefix|..])
    then Value(short[|shortPrefix|..]) else 0
  }

  /** The node's short name is the prefix and a numeral. */
  ghost predicate CarriesSerial(hostname: string, shortPrefix: string, d: string) {
    d != "" && AllDigits(d) && Short(hostname) == shortPrefix + d
  }

  lemma CarriedCounts(hostname: string, shortPrefix: string, d: string)
    requires CarriesSerial(hostname, shortPrefix, d)
    ensures Counted(hostname, shortPrefix) == Value(d)
  {
    hide Short, Value;
    assert Short(hostname)[|shortPrefix|..] == d;
  }

  lemma CountedCarries(hostname: string, shortPrefix: string) returns (d: string)
    requires Counted(hostname, shortPrefix) > 0
    ensures CarriesSerial(hostname, shortPrefix, d) && Value(d) == Counted(hostname, shortPrefix)
  {
    hide Short, Value;
    d := Short(hostname)[|shortPrefix|..];
  }

  function MaxSerial(hostnames: seq<string>, shortPrefix: string): (r: nat)
    ensures forall h :: h in hostnames ==> Counted(h, shortPrefix) <= r
    ensures r > 0 ==> exists h :: h in hostnames && Counted(h, shortPrefix) == r
  {
    if hostnames == [] then 0
    else
      var last := hostnames[|hostnames| - 1];
      assert forall h :: h in hostnames ==> h == last || h in hostnames[..|hostnames| - 1];
      Max(MaxSerial(hostnames[..|hostnames| - 1], shortPrefix), Counted(last, shortPrefix))
  }

  method GetNextSerial(hostnames: seq<string>, t: Template) returns (next: nat, shortPrefix: string)
    ensures shortPrefix == ShortPrefix(t)
    ensures next == MaxSerial(hostnames, ShortPrefix(t)) + 1
    ensures shortPrefix == t.prefix + t.tail
    ensures forall h, d :: h in hostnames && CarriesSerial(h, t.prefix + t.tail, d) ==> Value(d) < next
    ensures next == 1 || exists h, d :: h in hostnames && CarriesSerial(h, t.prefix + t.tail, d) && Value(d) == next - 1
  {
    shortPrefix := t.prefix + t.tail;
    var maxSerial := 0;
    for i := 0 to |hostnames|
      invariant maxSerial == MaxSerial(hostnames[..i], shortPrefix)
    {
      assert hostnames[..i + 1][..i] == hostnames[..i];
      var short := Short(hostnames[i]);
      if !(shortPrefix <= short) {
        continue;
      }
      var suffix := short[|shortPrefix|..];
      if suffix != "" && AllDigits(suffix) {
        maxSerial := Max(maxSerial, Value(suffix));
      }
    }
    assert hostnames[..|hostnames|] == hostnames;
    next := maxSerial + 1;
    NextIsOneMore(hostnames, t.prefix + t.tail);
  }

  /** The largest counted serial is one a listed node carries, and no listed node carries a larger one. */
  lemma NextIsOneMore(hostnames: seq<string>, shortPrefix: string)
    ensures forall h, d :: h in hostnames && CarriesSerial(h, shortPrefix, d) ==> Value(d) <= MaxSerial(hostnames, shortPrefix)
    ensures MaxSerial(hostnames, shortPrefix) == 0
         || exists h, d :: h in hostnames && CarriesSerial(h, shortPrefix, d) && Value(d) == MaxSerial(hostnames, shortPrefix)
  {
    hide Counted, Value, Short;
    forall h, d | h in hostnames && CarriesSerial(h, shortPrefix, d) ensures Value(d) <= MaxSerial(hostnames, shortPrefix) {
      CarriedCounts(h, shortPrefix, d);
    }
    if MaxSerial(hostnames, shortPrefix) > 0 {
      var h :| h in hostnames && Counted(h, shortPrefix) == MaxSerial(hostnames, shortPrefix);
      var d := CountedCarries(h, shortPrefix);
    }
  }

  function NextSerial(hostnames: seq<string>, t: Template): nat {
    MaxSerial(hostnames, ShortPrefix(t)) + 1
  }

  lemma CountedPrint(t: Template, n: nat, h: string)
    requires Proper(t) && t.tail == "" && Short(h) == Short(Print(t, n))
    ensures Counted(h, ShortPrefix(t)) == n
  {
    DecIsNumeral(n);
    ShortOfPrint(t, n);
    assert ShortPrefix(t) == t.prefix;
    assert Short(h) == t.prefix + Dec(n);
    assert Short(h)[|t.prefix|..] == Dec(n);
  }

  /** The next name is that of no listed node. */
  ghost predicate Fresh(t: Template, hostnames: seq<string>) {
    forall h :: h in hostnames ==> Short(h) != Short(Print(t, NextSerial(hostnames, t)))
  }

  lemma NextIsFresh(t: Template, hostnames: seq<string>)
    requires Proper(t) && t.tail == ""
    ensures Fresh(t, hostnames)
  {
    forall h | h in hostnames ensures Short(h) != Short(Print(t, NextSerial(hostnames, t))) {
      if Short(h) == Short(Print(t, NextSerial(hostnames, t))) {
        CountedPrint(t, NextSerial(hostnames, t), h);
        assert false;
      }
    }
  }

  /** Once a node has joined, under its full or its short name, later serials are larger. */
  lemma SerialsGrow(t: Template, n: nat, hostnames: seq<string>)
    requires Proper(t) && t.tail == ""
    requires Print(t, n) in hostnames || Short(Print(t, n)) in hostnames
    ensures NextSerial(hostnames, t) > n
  {
    CountedPrint(t, n, Print(t, n));
    if Short(Print(t, n)) in hostnames {
      ShortOfPrint(t, n);
      DecIsNumeral(n);
      ShortIs(Short(Print(t, n)), Short(Print(t, n)));
      CountedPrint(t, n, Short(Print(t, n)));
    }
  }

  // ---- A label that goes on after the serial ----

  /** If the name of serial 1 counts at all, the tail is made of ones and it counts for 1. */
  lemma {:induction false} TailOfOnes(tail: string, d: char, i: nat)
    requires tail != "" && "1" + tail == tail + [d]
    requires i < |tail|
    ensures tail[i] == '1' && d == '1'
    decreases |tail| - i, i
  {
    AllOnes(tail, d, i);
    AllOnes(tail, d, |tail| - 1);
    assert ("1" + tail)[|tail|] == tail[|tail| - 1];
    assert (tail + [d])[|tail|] == d;
  }

  lemma {:induction false} AllOnes(tail: string, d: char, i: nat)
    requires "1" + tail == tail + [d] && i < |tail|
    ensures tail[i] == '1'
  {
    assert ("1" + tail)[i] == (tail + [d])[i] == tail[i];
    if i > 0 {
      AllOnes(tail, d, i - 1);
      assert ("1" + tail)[i] == tail[i - 1];
    }
  }

  /** A list of nodes for which the next name is already taken. */
  lemma TailClashes(t: Template) returns (hostnames: seq<string>)
    requires Proper(t) && t.tail != ""
    ensures !Fresh(t, hostnames)
  {
    var one, two := Print(t, 1), Print(t, 2);
    var sp := ShortPrefix(t);
    ShortOfPrint(t, 1);
    ShortOfPrint(t, 2);
    assert Dec(1) == "1" && Dec(2) == "2";
    assert [one][..0] == [];
    if Counted(one, sp) == 0 {
      hostnames := [one];
      assert MaxSerial(hostnames, sp) == 0;
      assert one in hostnames;
    } else {
      OneCountsForOne(t);
      NeverCounted(t);
      hostnames := [one, two];
      assert hostnames[..1] == [one];
      assert MaxSerial([one], sp) == 1;
      assert MaxSerial(hostnames, sp) == 1;
      assert two in hostnames;
    }
  }

  lemma OneCountsForOne(t: Template)
    requires Proper(t) && t.tail != "" && Counted(Print(t, 1), ShortPrefix(t)) != 0
    ensures Counted(Print(t, 1), ShortPrefix(t)) == 1 && t.tail[0] == '1'
  {
    ShortOfPrint(t, 1);
    assert Dec(1) == "1";
    var short, sp := Short(Print(t, 1)), ShortPrefix(t);
    var d := short[|sp|..];
    assert short == t.prefix + ("1" + t.tail);
    assert short == sp + d == t.prefix + (t.tail + d);
    assert short[|t.prefix|..] == "1" + t.tail == t.tail + d;
    assert |d| == 1 && d == [d[0]];
    TailOfOnes(t.tail, d[0], 0);
    assert d == Dec(1);
    DecIsNumeral(1);
  }

  lemma NeverCounted(t: Template)
    requires Proper(t) && t.tail != "" && t.tail[0] == '1'
    ensures Counted(Print(t, 2), ShortPrefix(t)) == 0
  {
    ShortOfPrint(t, 2);
    assert Dec(2) == "2";
    var short, sp := Short(Print(t, 2)), ShortPrefix(t);
    assert short[|t.prefix|] == '2' && sp[|t.prefix|] == '1';
  }

  /** The next name is fresh whatever nodes are listed exactly for templates whose label ends with the serial. */
  lemma FreshIffSerialLast(t: Template)
    requires Proper(t)
    ensures (forall hostnames :: Fresh(t, hostnames)) <==> t.tail == ""
  {
    if t.tail == "" {
      forall hostnames ensures Fresh(t, hostnames) {
        NextIsFresh(t, hostnames);
      }
    } else {
      var hostnames := TailClashes(t);
      assert !Fresh(t, hostnames);
    }
  }
}
