/**
 * The public events page: the events shown for a day window, the heading, and
 * the share texts made from an event's HTML description.
 */
module EventsPage {
  import opened Wrappers
  import opened Js
  import opened Lists
  import opened Utils
  import opened CmsModel

  /** How many events the page shows at most. */
  const MaxShown := 5

  function DateOf(e: Event): int {
    e.date
  }

  /** `startAt <= e.date <= endAt`. */
  function InWindow(startAt: int, endAt: int): Event -> bool {
    (e: Event) => startAt <= e.date <= endAt
  }

  /** A copy of the events, ascending by date. */
  function ByDate(events: seq<Event>): (r: seq<Event>)
    ensures SortedBy(r, ByIntKey(DateOf))
    ensures multiset(r) == multiset(events)
    ensures forall e :: e in r <==> e in events
  {
    IntKeyOrders(DateOf);
    var r := SortBy(events, ByIntKey(DateOf));
    assert forall e :: e in r <==> e in events by {
      forall e
        ensures e in r <==> e in events
      {
        assert e in r <==> multiset(r)[e] > 0;
        assert e in events <==> multiset(events)[e] > 0;
      }
    }
    r
  }

  /**
   * The events shown: sorted by date, those inside the window, the first five.
   * The day bounds come from the selected date or from today, and are inputs here.
   */
  function ShownEvents(events: seq<Event>, startAt: int, endAt: int): (r: seq<Event>)
    ensures |r| <= MaxShown
    ensures forall e :: e in r ==> e in events && startAt <= e.date <= endAt
    ensures forall i, j :: 0 <= i < j < |r| ==> r[i].date <= r[j].date
  {
    ShownFacts(ByDate(events), startAt, endAt);
    Take(Filter(ByDate(events), InWindow(startAt, endAt)), MaxShown)
  }

  lemma ShownFacts(sorted: seq<Event>, startAt: int, endAt: int)
    requires SortedBy(sorted, ByIntKey(DateOf))
    ensures var r := Take(Filter(sorted, InWindow(startAt, endAt)), MaxShown);
      && |r| <= MaxShown
      && (forall e :: e in r ==> e in sorted && startAt <= e.date <= endAt)
      && (forall i, j :: 0 <= i < j < |r| ==> r[i].date <= r[j].date)
  {
    var inWindow := Filter(sorted, InWindow(startAt, endAt));
    FilterSorted(sorted, InWindow(startAt, endAt), ByIntKey(DateOf));
    var r := Take(inWindow, MaxShown);
    assert forall e :: e in r ==> e in inWindow;
  }

  /** In a date-sorted list, an event past the first `n` is no earlier than any of them. */
  lemma SortedCutEarliest(w: seq<Event>, n: nat, e: Event)
    requires SortedBy(w, ByIntKey(DateOf))
    requires e in w && e !in Take(w, n)
    ensures forall x :: x in Take(w, n) ==> x.date <= e.date
  {
    var k :| 0 <= k < |w| && w[k] == e;
    var r := Take(w, n);
    assert forall i :: 0 <= i < |r| ==> r[i] != e;
    assert k >= |r|;
    forall x | x in r
      ensures x.date <= e.date
    {
      var i :| 0 <= i < |r| && r[i] == x;
      assert w[i] == x;
    }
  }

  /**
   * No event of the window is passed over for a later one: an event in the
   * window that is not shown is no earlier than every shown event, and with
   * fewer than five shown, every event of the window is shown.
   */
  lemma ShownAreEarliest(events: seq<Event>, startAt: int, endAt: int)
    ensures var r := ShownEvents(events, startAt, endAt);
      && (forall e :: e in events && startAt <= e.date <= endAt && e !in r ==>
            forall x :: x in r ==> x.date <= e.date)
      && (|r| < MaxShown ==> multiset(r) == multiset(Filter(events, InWindow(startAt, endAt))))
  {
    var sorted := ByDate(events);
    var p := InWindow(startAt, endAt);
    var inWindow := Filter(sorted, p);
    FilterSorted(sorted, p, ByIntKey(DateOf));
    FilterPermutation(sorted, events, p);
    var r := ShownEvents(events, startAt, endAt);
    assert r == Take(inWindow, MaxShown);
    forall e | e in events && startAt <= e.date <= endAt && e !in r
      ensures forall x :: x in r ==> x.date <= e.date
    {
      FilterMultiset(events, p, e);
      assert multiset(inWindow)[e] > 0;
      SortedCutEarliest(inWindow, MaxShown, e);
    }
  }

  // ---- share text ----

  predicate IsLetter(c: char) {
    'a' <= c <= 'z' || 'A' <= c <= 'Z'
  }

  /** Length of the run of characters satisfying `p` at the start of `s`. */
  function RunLen(s: string, p: char -> bool): (n: nat)
    ensures n <= |s|
    ensures forall i :: 0 <= i < n ==> p(s[i])
    ensures n < |s| ==> !p(s[n])
  {
    if |s| == 0 || !p(s[0]) then 0 else 1 + RunLen(s[1..], p)
  }

  /**
   * Length of a match of `<\/?[a-z0-9]+>` (any letter case) at the start of
   * `s`, or 0 when there is none.
   */
  function TagLen(s: string): (n: nat)
    ensures n <= |s|
    ensures n > 0 ==> n >= 3 && s[0] == '<' && s[n - 1] == '>'
  {
    if |s| == 0 || s[0] != '<' then 0
    else
      var from := if |s| > 1 && s[1] == '/' then 2 else 1;
      var run := RunLen(s[from..], IsAlnum);
      if run > 0 && from + run < |s| && s[from + run] == '>' then from + run + 1 else 0
  }

  /** Length of a match of `&[a-z]+;` (any letter case) at the start of `s`, or 0. */
  function EntityLen(s: string): (n: nat)
    ensures n <= |s|
    ensures n > 0 ==> n >= 3 && s[0] == '&' && s[n - 1] == ';'
  {
    if |s| == 0 || s[0] != '&' then 0
    else
      var run := RunLen(s[1..], IsLetter);
      if run > 0 && 1 + run < |s| && s[1 + run] == ';' then run + 2 else 0
  }

  /**
   * `replace(/<\/?[a-z0-9]+>|&[a-z]+;/gmi, '')`: scanning left to right, every
   * attribute-less tag and every named entity is removed; everything else is kept.
   */
  function StripTags(s: string): (r: string)
    ensures |r| <= |s|
    ensures forall c :: c in r ==> c in s
    decreases |s|
  {
    if |s| == 0 then ""
    else if TagLen(s) > 0 then
      var r := StripTags(s[TagLen(s)..]);
      assert forall c :: c in s[TagLen(s)..] ==> c in s;
      r
    else if EntityLen(s) > 0 then
      var r := StripTags(s[EntityLen(s)..]);
      assert forall c :: c in s[EntityLen(s)..] ==> c in s;
      r
    else
      var r := [s[0]] + StripTags(s[1..]);
      assert forall c :: c in s[1..] ==> c in s;
      r
  }

  /** Text with no `<` and no `&` in front of the rest is kept as it is. */
  lemma {:induction false} PlainPrefixKept(a: string, b: string)
    requires forall i :: 0 <= i < |a| ==> a[i] != '<' && a[i] != '&'
    ensures StripTags(a + b) == a + StripTags(b)
  {
    if |a| > 0 {
      PlainFirstKept(a + b);
      HeadTail(a, b);
      PlainPrefixKept(a[1..], b);
      HeadTail(a, StripTags(b));
    } else {
      assert a + b == b;
    }
  }

  lemma HeadTail(a: string, b: string)
    requires |a| > 0
    ensures (a + b)[0] == a[0] && (a + b)[1..] == a[1..] + b && [a[0]] + (a[1..] + b) == a + b
  {
  }

  lemma Regroup(p: string, q: string, r: string, t: string)
    ensures p + q + r + t == p + ((q + r) + t)
  {
  }

  /** A first character other than `<` and `&` is kept. */
  lemma PlainFirstKept(s: string)
    requires |s| > 0 && s[0] != '<' && s[0] != '&'
    ensures StripTags(s) == [s[0]] + StripTags(s[1..])
  {
  }

  /** Text with no `<` and no `&` is left exactly as it is. */
  lemma PlainTextKept(s: string)
    requires forall i :: 0 <= i < |s| ==> s[i] != '<' && s[i] != '&'
    ensures StripTags(s) == s
  {
    PlainPrefixKept(s, "");
    assert s + "" == s;
  }

  lemma {:induction false} RunOfName(name: string, rest: string, p: char -> bool)
    requires forall i :: 0 <= i < |name| ==> p(name[i])
    requires |rest| > 0 && !p(rest[0])
    ensures RunLen(name + rest, p) == |name|
  {
    if |name| > 0 {
      assert (name + rest)[1..] == name[1..] + rest;
      RunOfName(name[1..], rest, p);
    }
  }

  predicate IsTagName(name: string) {
    |name| > 0 && forall i :: 0 <= i < |name| ==> IsAlnum(name[i])
  }

  /** `<name>` is removed as a whole, and scanning goes on after it. */
  lemma OpeningTagRemoved(name: string, b: string)
    requires IsTagName(name)
    ensures StripTags("<" + name + ">" + b) == StripTags(b)
  {
    var t := "<" + name + ">" + b;
    assert t[1..] == name + (">" + b);
    RunOfName(name, ">" + b, IsAlnum);
    assert TagLen(t) == |name| + 2;
    assert t[|name| + 2..] == b;
  }

  /** A removed tag leaves the text around it joined: `a<b>c` gives `ac` when `a` has no markup. */
  lemma TagRemoved(a: string, name: string, b: string)
    requires forall i :: 0 <= i < |a| ==> a[i] != '<' && a[i] != '&'
    requires IsTagName(name)
    ensures StripTags(a + "<" + name + ">" + b) == a + StripTags(b)
  {
    assert a + "<" + name + ">" + b == a + ("<" + name + ">" + b);
    PlainPrefixKept(a, "<" + name + ">" + b);
    OpeningTagRemoved(name, b);
  }

  /** `</name>` is removed as a whole, and scanning goes on after it. */
  lemma ClosingTagRemovedHere(name: string, b: string)
    requires IsTagName(name)
    ensures StripTags("</" + name + ">" + b) == StripTags(b)
  {
    var t := "</" + name + ">" + b;
    assert t[1] == '/';
    assert t[2..] == name + (">" + b);
    RunOfName(name, ">" + b, IsAlnum);
    assert TagLen(t) == |name| + 3;
    assert t[|name| + 3..] == b;
  }

  /** A removed closing tag leaves the text around it joined: `a</b>c` gives `ac` when `a` has no markup. */
  lemma ClosingTagRemoved(a: string, name: string, b: string)
    requires forall i :: 0 <= i < |a| ==> a[i] != '<' && a[i] != '&'
    requires IsTagName(name)
    ensures StripTags(a + "</" + name + ">" + b) == a + StripTags(b)
  {
    assert a + "</" + name + ">" + b == a + ("</" + name + ">" + b);
    PlainPrefixKept(a, "</" + name + ">" + b);
    ClosingTagRemovedHere(name, b);
  }

  predicate IsEntityName(name: string) {
    |name| > 0 && forall i :: 0 <= i < |name| ==> IsLetter(name[i])
  }

  /** `&name;` is removed as a whole, and scanning goes on after it. */
  lemma EntityRemovedHere(name: string, b: string)
    requires IsEntityName(name)
    ensures StripTags("&" + name + ";" + b) == StripTags(b)
  {
    var t := "&" + name + ";" + b;
    assert t[1..] == name + (";" + b);
    RunOfName(name, ";" + b, IsLetter);
    assert TagLen(t) == 0;
    assert EntityLen(t) == |name| + 2;
    assert t[|name| + 2..] == b;
  }

  /** A removed entity leaves the text around it joined: `a&amp;c` gives `ac` when `a` has no markup. */
  lemma EntityRemoved(a: string, name: string, b: string)
    requires forall i :: 0 <= i < |a| ==> a[i] != '<' && a[i] != '&'
    requires IsEntityName(name)
    ensures StripTags(a + "&" + name + ";" + b) == a + StripTags(b)
  {
    assert a + "&" + name + ";" + b == a + ("&" + name + ";" + b);
    PlainPrefixKept(a, "&" + name + ";" + b);
    EntityRemovedHere(name, b);
  }

  /** At a position where no tag or entity starts, the character is kept. */
  lemma KeptFirst(s: string)
    requires |s| > 0 && TagLen(s) == 0 && EntityLen(s) == 0
    ensures StripTags(s) == [s[0]] + StripTags(s[1..])
  {
  }

  lemma AttributedTagLen(name: string, rest: string)
    requires IsTagName(name)
    ensures TagLen("<" + name + " " + rest) == 0
  {
    var s := "<" + name + " " + rest;
    assert s[1..] == name + (" " + rest);
    RunOfName(name, " " + rest, IsAlnum);
    assert s[1 + |name|] == ' ';
  }

  /** A tag with attributes is not a match: `<name attrs>` keeps its `<`, its name and the space. */
  lemma TagWithAttributesKept(s: string, name: string, rest: string)
    requires IsTagName(name) && s == "<" + name + " " + rest
    ensures StripTags(s) == "<" + name + " " + StripTags(rest)
  {
    var kept := name + " ";
    Regroup("<", name, " ", rest);
    HeadTail("<", kept + rest);
    AttributedTagLen(name, rest);
    KeptFirst(s);
    PlainPrefixKept(kept, rest);
    Regroup("<", name, " ", StripTags(rest));
  }

  /**
   * Removing markup is not idempotent: `<<name>name>` gives `<name>`, itself a
   * tag, which a second pass removes.
   */
  lemma StripTagsNotIdempotent(name: string)
    requires IsTagName(name)
    ensures StripTags("<<" + name + ">" + name + ">") == "<" + name + ">"
    ensures StripTags("<" + name + ">") == ""
  {
    var tag := "<" + name + ">";
    var t := tag + (name + ">");
    assert "<<" + name + ">" + name + ">" == "<" + t;
    FirstPass(name, tag, t);
    OpeningTagRemoved(name, "");
    assert tag + "" == tag;
  }

  lemma FirstPass(name: string, tag: string, t: string)
    requires IsTagName(name) && tag == "<" + name + ">" && t == tag + (name + ">")
    ensures StripTags("<" + t) == tag
  {
    StrayOpenKept(t);
    OpeningTagRemoved(name, name + ">");
    PlainTextKept(name + ">");
  }

  /** A `<` followed by neither `/` nor a letter or digit starts no tag and is kept. */
  lemma StrayOpenKept(t: string)
    requires |t| > 0 && t[0] != '/' && !IsAlnum(t[0])
    ensures StripTags("<" + t) == "<" + StripTags(t)
  {
    var s := "<" + t;
    assert s[1..] == t;
    assert RunLen(t, IsAlnum) == 0;
    assert TagLen(s) == 0;
    KeptFirst(s);
  }

  /** `truncate(shareText, 250, '...')`. */
  function TwitterTitle(description: string): (r: string)
    ensures |r| <= 254
    ensures |StripTags(description)| <= 250 ==> r == StripTags(description)
  {
    TruncateBound(StripTags(description), 250, "...");
    Truncate(StripTags(description), 250, "...")
  }

  // ---- heading ----

  /** A calendar day as the date picker gives it, in local time. */
  datatype Day = Day(day: nat, month: nat, year: nat)

  function Zeros(k: nat): (r: string)
    ensures |r| == k && forall i :: 0 <= i < k ==> r[i] == '0'
  {
    if k == 0 then "" else "0" + Zeros(k - 1)
  }

  /** `n` in decimal, left-padded with zeros to at least `width` digits. */
  function Padded(n: nat, width: nat): (r: string)
    ensures |r| >= width
    ensures forall i :: 0 <= i < |r| ==> IsDigit(r[i])
  {
    var digits := NatToString(n);
    if |digits| < width then Zeros(width - |digits|) + digits else digits
  }

  /** `'Events in ' + format('DD/MM/YYYY')` for a chosen day, otherwise `'Next Events'`. */
  function Heading(date: Option<Day>): (r: string)
    ensures r == "Next Events" <==> date.None?
    ensures date.Some? ==> |r| >= 20 && r[..10] == "Events in "
  {
    if date.Some? then
      var r := "Events in " + Padded(date.value.day, 2) + "/" + Padded(date.value.month, 2) + "/" + Padded(date.value.year, 4);
      assert r[..10] == "Events in ";
      r
    else "Next Events"
  }

  /** The value of a string of decimal digits. */
  function DecimalValue(s: string): nat
    requires forall i :: 0 <= i < |s| ==> IsDigit(s[i])
  {
    if |s| == 0 then 0
    else
      assert IsDigit(s[|s| - 1]);
      10 * DecimalValue(s[..|s| - 1]) + (s[|s| - 1] as int - '0' as int)
  }

  lemma {:induction false} NatToStringValue(n: nat)
    ensures DecimalValue(NatToString(n)) == n
  {
    if n >= 10 {
      NatToStringValue(n / 10);
      var s := NatToString(n);
      assert s[..|s| - 1] == NatToString(n / 10);
    }
  }

  lemma {:induction false} LeadingZerosValue(k: nat, s: string)
    requires forall i :: 0 <= i < |s| ==> IsDigit(s[i])
    ensures forall i :: 0 <= i < k + |s| ==> IsDigit((Zeros(k) + s)[i])
    ensures DecimalValue(Zeros(k) + s) == DecimalValue(s)
  {
    var t := Zeros(k) + s;
    assert forall i :: 0 <= i < |t| ==> IsDigit(t[i]);
    if |s| > 0 {
      LeadingZerosValue(k, s[..|s| - 1]);
      assert t[..|t| - 1] == Zeros(k) + s[..|s| - 1];
    } else {
      ZerosValue(k);
      assert t == Zeros(k);
    }
  }

  lemma {:induction false} ZerosValue(k: nat)
    ensures DecimalValue(Zeros(k)) == 0
  {
    if k > 0 {
      assert Zeros(k)[..k - 1] == Zeros(k - 1);
      ZerosValue(k - 1);
    }
  }

  /** The padded digits read back as the number they were made from. */
  lemma PaddedValue(n: nat, width: nat)
    ensures DecimalValue(Padded(n, width)) == n
  {
    NatToStringValue(n);
    var digits := NatToString(n);
    if |digits| < width {
      LeadingZerosValue(width - |digits|, digits);
    }
  }

  /** A day whose parts fit their fields gives a heading of fixed shape, each field reading back as its part. */
  lemma HeadingOfDay(d: Day)
    requires d.day < 100 && d.month < 100 && d.year < 10000
    ensures var h := Heading(Some(d));
      && |h| == 20
      && h[..10] == "Events in " && h[12] == '/' && h[15] == '/'
      && DecimalValue(h[10..12]) == d.day
      && DecimalValue(h[13..15]) == d.month
      && DecimalValue(h[16..]) == d.year
  {
    PaddedExactly(d.day, 2);
    PaddedExactly(d.month, 2);
    PaddedExactly(d.year, 4);
    HeadingSlices(Padded(d.day, 2), Padded(d.month, 2), Padded(d.year, 4));
  }

  /** A number below `10^width` pads to exactly `width` digits that read back as the number. */
  lemma PaddedExactly(n: nat, width: nat)
    requires 1 <= width && n < Pow10(width)
    ensures |Padded(n, width)| == width && DecimalValue(Padded(n, width)) == n
  {
    NatToStringShort(n, width);
    PaddedValue(n, width);
  }

  lemma HeadingSlices(dd: string, mm: string, yyyy: string)
    requires |dd| == 2 && |mm| == 2 && |yyyy| == 4
    ensures var h := "Events in " + dd + "/" + mm + "/" + yyyy;
      && |h| == 20
      && h[..10] == "Events in " && h[12] == '/' && h[15] == '/'
      && h[10..12] == dd && h[13..15] == mm && h[16..] == yyyy
  {
  }

  lemma {:induction false} NatToStringShort(n: nat, width: nat)
    requires 1 <= width && n < Pow10(width)
    ensures |NatToString(n)| <= width
  {
    if n >= 10 {
      assert Pow10(1) == 10;
      assert width > 1;
      assert Pow10(width) == 10 * Pow10(width - 1);
      NatToStringShort(n / 10, width - 1);
    }
  }

  function Pow10(k: nat): nat {
    if k == 0 then 1 else 10 * Pow10(k - 1)
  }
}
