/**
 What the list of permitted directories reads, said without the functions that read it:
 which texts are host names, when a list is refused, and which entries URLs are.
 */
module AllowlistLaws {
  import opened Options
  import opened Text
  import opened Allowlist

  // ----- which names these are

  predicate IsNameByte(c: char)
  {
    c == '.' || c == '-' || c == '_' || 'a' <= c <= 'z' || '0' <= c <= '9'
  }

  ghost predicate DotWithin(s: string, i: nat)
    requires i + 64 <= |s|
  {
    exists j: nat :: i <= j < i + 64 && s[j] == '.'
  }

  /** Letters, digits, hyphens, underscores and dots, with one to 63 characters before, between and after the dots. */
  ghost predicate DottedName(s: string)
  {
    && s != [] && s[0] != '.' && s[|s| - 1] != '.'
    && (forall i: nat :: i < |s| ==> IsNameByte(s[i]))
    && (forall i: nat, j: nat :: j < |s| && i + 1 == j ==> s[i] != '.' || s[j] != '.')
    && (forall i: nat :: i + 64 <= |s| ==> DotWithin(s, i))
  }

  lemma NoDotWithin(s: string)
    requires |s| >= 64 && '.' !in s[..64]
    ensures !DottedName(s)
  {
    forall j: nat | j < 64
      ensures s[j] != '.'
    {
      assert s[j] == s[..64][j];
    }
    assert !DotWithin(s, 0);
  }

  lemma OneLabel(s: string)
    requires '.' !in s
    ensures IsLabel(s) <==> DottedName(s)
  {
    if |s| >= 64 {
      NoDotWithin(s);
    }
    if s != [] && |s| <= 63 {
      assert s[0] in s && s[|s| - 1] in s;
      assert forall i: nat :: i < |s| ==> s[i] in s;
    }
  }

  lemma MoreLabels(first: string, rest: string)
    requires '.' !in first
    ensures DottedName(first + ['.'] + rest) <==> IsLabel(first) && DottedName(rest)
  {
    var s, k := first + ['.'] + rest, |first|;
    assert forall i: nat :: i < |rest| ==> s[k + 1 + i] == rest[i];
    assert forall i: nat :: i < k ==> s[i] == first[i] && s[i] in first;
    if DottedName(s) {
      FirstLabel(first, rest);
      RestLabels(first, rest);
    } else if IsLabel(first) && DottedName(rest) {
      forall i: nat | i + 64 <= |s|
        ensures DotWithin(s, i)
      {
        if i <= k {
          assert s[k] == '.';
        } else {
          assert DotWithin(rest, i - k - 1);
          var j: nat :| i - k - 1 <= j < i - k - 1 + 64 && rest[j] == '.';
          assert s[k + 1 + j] == '.';
        }
      }
    }
  }

  lemma FirstLabel(first: string, rest: string)
    requires '.' !in first && DottedName(first + ['.'] + rest)
    ensures IsLabel(first)
  {
    var s, k := first + ['.'] + rest, |first|;
    assert s[k] == '.';
    assert forall i: nat :: i < k ==> s[i] == first[i] && s[i] in first;
    if k >= 64 {
      assert s[..64] == first[..64];
      NoDotWithin(s);
    }
  }

  lemma RestLabels(first: string, rest: string)
    requires '.' !in first && DottedName(first + ['.'] + rest)
    ensures DottedName(rest)
  {
    var s, k := first + ['.'] + rest, |first|;
    assert s[k] == '.' && s[|s| - 1] != '.';
    assert rest != [];
    assert forall i: nat :: i < |rest| ==> s[k + 1 + i] == rest[i];
    assert s[k + 1] != '.';
    forall i: nat | i + 64 <= |rest|
      ensures DotWithin(rest, i)
    {
      assert DotWithin(s, k + 1 + i);
      var j: nat :| k + 1 + i <= j < k + 1 + i + 64 && s[j] == '.';
      assert rest[j - k - 1] == '.';
    }
  }

  lemma {:induction false} LabelsAre(s: string)
    ensures AreLabels(Split(s, '.')) <==> DottedName(s)
    decreases |s|
  {
    if '.' !in s {
      OneLabel(s);
      SplitWhole(s, '.');
      AreOne(s);
    } else {
      var first, rest := SplitAtDot(s);
      LabelsAre(rest);
      MoreLabels(first, rest);
      OneMoreLabel(first, Split(rest, '.'));
    }
  }

  lemma SplitAtDot(s: string) returns (first: string, rest: string)
    requires '.' in s
    ensures '.' !in first && s == first + ['.'] + rest
    ensures Split(s, '.') == [first] + Split(rest, '.')
  {
    var k := Index(s, '.');
    first, rest := s[..k], s[k + 1..];
    assert s == first + ['.'] + rest;
    SplitFirst(first, '.', rest);
  }

  lemma AreOne(s: string)
    ensures AreLabels([s]) <==> IsLabel(s)
  {
    assert [s][0] == s;
  }

  lemma OneMoreLabel(first: string, more: seq<string>)
    ensures AreLabels([first] + more) <==> IsLabel(first) && AreLabels(more)
  {
    var parts := [first] + more;
    assert forall i: nat :: i < |more| ==> parts[i + 1] == more[i];
    if AreLabels(parts) {
      assert IsLabel(parts[0]);
      forall i: nat | i < |more|
        ensures IsLabel(more[i])
      {
        assert IsLabel(parts[i + 1]);
      }
    }
  }

  /** The texts that are names: in lower case and without a dot at the end they are such, and not too long. */
  lemma NamesAre(h: string)
    ensures var n := Lower(if h != [] && h[|h| - 1] == '.' then h[..|h| - 1] else h);
      NormalName(h) == if |n| <= 253 && DottedName(n) then Some(n) else None
  {
    LabelsAre(Lower(TrimDot(h)));
  }

  // ----- which lists these are

  ghost predicate OnlyBlanks(s: string)
  {
    forall i: nat :: i < |s| ==> IsTrimmed(s[i])
  }

  lemma BlankIff(s: string)
    ensures TrimSpace(s) == [] <==> OnlyBlanks(s)
  {
    var from, to := TrimSpaceCuts(s);
    if from < to {
      assert !IsTrimmed(s[from..to][0]) && s[from..to][0] == s[from];
    }
  }

  /** A list is refused exactly when some part of it that is not blank is no entry. */
  lemma RefusedIff(book: Book, s: string)
    ensures ParseList(book, s).None? <==>
      exists part :: part in Split(s, ',') && !OnlyBlanks(part) && ParseEndpoint(book, part).None?
  {
    var texts := Split(s, ',');
    var parts := ReadParts(book, texts);
    EntriesNone(parts, |parts|);
    if k: nat :| k < |parts| && parts[k] == Wrong {
      WrongIff(book, texts[k]);
      assert texts[k] in texts;
    }
    if part :| part in texts && !OnlyBlanks(part) && ParseEndpoint(book, part).None? {
      var k: nat :| k < |texts| && texts[k] == part;
      WrongIff(book, part);
      assert parts[k] == Wrong;
    }
  }

  lemma WrongIff(book: Book, part: string)
    ensures ReadPart(book, part) == Wrong <==> !OnlyBlanks(part) && ParseEndpoint(book, part).None?
  {
    BlankIff(part);
  }

  lemma {:induction false} EntriesNone(parts: seq<Part>, n: nat)
    requires n <= |parts|
    ensures Entries(parts, n).None? <==> exists k: nat :: k < n && parts[k] == Wrong
  {
    if n > 0 {
      EntriesNone(parts, n - 1);
    }
  }

  ghost predicate Ascending(places: seq<nat>)
  {
    forall i: nat, j: nat :: i < j < |places| ==> places[i] < places[j]
  }

  /** Otherwise its entries are those of its parts that are not blank, in order. */
  lemma EntriesInOrder(book: Book, s: string) returns (places: seq<nat>)
    requires ParseList(book, s).Some?
    ensures Ascending(places) && |places| == |ParseList(book, s).value|
    ensures forall k: nat :: k in places <==> k < |Split(s, ',')| && !OnlyBlanks(Split(s, ',')[k])
    ensures forall i: nat :: i < |places| ==> places[i] < |Split(s, ',')|
    ensures forall i: nat :: i < |places| ==>
      ParseEndpoint(book, Split(s, ',')[places[i]]) == Some(ParseList(book, s).value[i])
  {
    var texts := Split(s, ',');
    var parts := ReadParts(book, texts);
    places := EntriesAt(parts, |parts|);
    forall k: nat | k < |texts|
      ensures parts[k] == Blank <==> OnlyBlanks(texts[k])
      ensures parts[k].Entry? ==> ParseEndpoint(book, texts[k]) == Some(parts[k].endpoint)
    {
      PartIs(book, texts[k]);
    }
  }

  lemma PartIs(book: Book, part: string)
    ensures ReadPart(book, part) == Blank <==> OnlyBlanks(part)
    ensures ReadPart(book, part).Entry? ==> ParseEndpoint(book, part) == Some(ReadPart(book, part).endpoint)
  {
    BlankIff(part);
  }

  lemma {:induction false} EntriesAt(parts: seq<Part>, n: nat) returns (places: seq<nat>)
    requires n <= |parts| && Entries(parts, n).Some?
    ensures Ascending(places) && |places| == |Entries(parts, n).value|
    ensures forall k: nat :: k in places <==> k < n && parts[k] != Blank
    ensures forall i: nat :: i < |places| ==>
      places[i] < n && parts[places[i]] == Entry(Entries(parts, n).value[i])
  {
    if n == 0 {
      return [];
    }
    places := EntriesAt(parts, n - 1);
    if parts[n - 1] != Blank {
      places := places + [n - 1];
    }
  }

  // ----- which entries URLs are

  /** The text is a URL: a scheme up to `end`, and the rest three characters on. */
  predicate IsUrl(raw: string, end: nat)
  {
    && end + 3 <= |raw| && (forall i: nat :: i < end ==> raw[i] != ':')
    && raw[end] == ':' && raw[end + 1] == '/' && raw[end + 2] == '/'
  }

  lemma {:induction false} SchemeEndIs(raw: string, end: nat)
    requires IsUrl(raw, end)
    ensures SchemeEnd(raw) == end
  {
    if end == 0 {
      assert raw[..3] == [raw[0], raw[1], raw[2]] == "://";
    } else {
      assert raw[..3][0] == raw[0] != ':';
      assert "://"[0] == ':';
      SchemeEndIs(raw[1..], end - 1);
    }
  }

  lemma UrlIs(book: Book, raw: string, end: nat)
    requires IsUrl(raw, end) && TrimSpace(raw) == raw
    ensures ParseEndpoint(book, raw) == ParseUrl(book, raw, end)
  {
    SchemeEndIs(raw, end);
  }

  lemma UrlParts(book: Book, raw: string, end: nat, host: string, port: string, plain: nat)
    requires end + 3 <= |raw| && (Lower(raw[..end]) == "ldap" || Lower(raw[..end]) == "ldaps")
    requires plain == if Lower(raw[..end]) == "ldap" then 389 else 636
    requires EntryText(raw[end + 3..]) && SplitHostPort(raw[end + 3..]) == Some((host, port))
    ensures ParseUrl(book, raw, end) == EndpointAt(book, host, if port != [] then Atoi(port) else Some(plain))
  {
    NoUrlChars(raw[end + 3..]);
  }

  lemma NoUrlChars(rest: string)
    requires EntryText(rest)
    ensures '/' !in rest && '?' !in rest && '#' !in rest && '@' !in rest
  {
    assert forall i: nat :: i < |rest| ==> rest[i] != '/' && rest[i] != '?' && rest[i] != '#' && rest[i] != '@';
  }

  /** An ldap URL is for port 389 unless it names another, an ldaps URL for 636. */
  lemma UrlsRead(book: Book, raw: string, end: nat, e: Endpoint)
    requires Written(book, e) && IsUrl(raw, end) && raw[end + 3..] == String(e)
    requires Lower(raw[..end]) == "ldap" || Lower(raw[..end]) == "ldaps"
    ensures ParseEndpoint(book, raw) == Some(Endpoint(e.host,
      if !e.anyPort then e.port else if Lower(raw[..end]) == "ldap" then 389 else 636, false))
  {
    PrintedText(e);
    UrlIsTrimmed(raw, end);
    UrlIs(book, raw, end);
    PrintedSplits(e);
    var plain := if Lower(raw[..end]) == "ldap" then 389 else 636;
    UrlParts(book, raw, end, e.host, if e.anyPort then [] else Itoa(e.port), plain);
    AtoiOf(e.port);
    SettledEndpoint(book, e.host, if e.anyPort then plain else e.port);
  }

  lemma SettledEndpoint(book: Book, h: string, port: nat)
    requires Settled(book, h) && 1 <= port <= 65535
    ensures EndpointAt(book, h, Some(port)) == Some(Endpoint(h, port, false))
  {
    SettledTarget(book, h, port);
  }

  lemma UrlIsTrimmed(raw: string, end: nat)
    requires IsUrl(raw, end) && EntryText(raw[end + 3..])
    requires Lower(raw[..end]) == "ldap" || Lower(raw[..end]) == "ldaps"
    ensures TrimSpace(raw) == raw
  {
    assert Lower(raw[..end])[0] == 'l' && LowerChar(raw[0]) == 'l';
    var rest := raw[end + 3..];
    assert IsEntryChar(rest[|rest| - 1]) && raw[|raw| - 1] == rest[|rest| - 1];
    TrimmedStays(raw);
  }

  /** The URL has another scheme, or a path, a query, a fragment or credentials. */
  predicate IsOtherUrl(raw: string, end: nat)
    requires end + 3 <= |raw|
  {
    || (Lower(raw[..end]) != "ldap" && Lower(raw[..end]) != "ldaps")
    || '/' in raw[end + 3..] || '?' in raw[end + 3..] || '#' in raw[end + 3..] || '@' in raw[end + 3..]
  }

  lemma OtherIsNone(book: Book, raw: string, end: nat)
    requires end + 3 <= |raw| && IsOtherUrl(raw, end)
    ensures ParseUrl(book, raw, end).None?
  {
  }

  /** Such a URL is no entry. */
  lemma OtherUrlsRefused(book: Book, raw: string, end: nat, e: Option<Endpoint>)
    requires IsUrl(raw, end) && TrimSpace(raw) == raw && IsOtherUrl(raw, end) && e == ParseEndpoint(book, raw)
    ensures e.None?
  {
    OtherIsNone(book, raw, end);
    UrlIs(book, raw, end);
  }

  /** Brackets around a host make no difference, and an address with a zone is no host. */
  lemma HostsInBrackets(book: Book, h: string)
    requires HostText(h)
    ensures ParseHost(book, "[" + h + "]") == ParseHost(book, h)
    ensures h in book && book[h].Zoned? ==> ParseHost(book, h).None?
  {
    var b := "[" + h + "]";
    assert b[0] == '[' && b[|b| - 1] == ']' && b[1..|b| - 1] == h;
    TrimmedStays(b);
    HostTextIsPlain(h);
  }

  /** A host has no brackets but one pair around it. */
  lemma OnlyOuterBrackets(book: Book, h: string)
    requires TrimSpace(h) == h && ParseHost(book, h).Some?
    ensures ('[' !in h && ']' !in h) ||
      (|h| >= 2 && h[0] == '[' && h[|h| - 1] == ']' && '[' !in h[1..|h| - 1] && ']' !in h[1..|h| - 1])
  {
  }

  /** The number in decimal, with zeros before it or without. */
  predicate IsDecimal(s: string, n: nat)
  {
    && |Itoa(n)| <= |s| && s[|s| - |Itoa(n)|..] == Itoa(n)
    && forall i: nat :: i < |s| - |Itoa(n)| ==> s[i] == '0'
  }

  lemma {:induction false} DigitsAre(s: string, n: nat)
    requires n >= 1
    ensures Digits(s) == Some(n) <==> IsDecimal(s, n)
  {
    if s != [] {
      var front := s[..|s| - 1];
      LastDigit(s, n);
      if n >= 10 {
        LastOfDecimal(s, n);
        DigitsAre(front, n / 10);
      } else {
        OneDigit(s, n);
        ZerosAre(front);
      }
    }
  }

  lemma LastDigit(s: string, n: nat)
    requires s != []
    ensures Digits(s) == Some(n) <==> s[|s| - 1] == Digit(n % 10) && Digits(s[..|s| - 1]) == Some(n / 10)
  {
  }

  lemma LastOfDecimal(s: string, n: nat)
    requires s != [] && n >= 10
    ensures IsDecimal(s, n) <==> s[|s| - 1] == Digit(n % 10) && IsDecimal(s[..|s| - 1], n / 10)
  {
    var front, high := s[..|s| - 1], Itoa(n / 10);
    assert Itoa(n) == high + [Digit(n % 10)];
    if |high| <= |front| {
      var cut := |front| - |high|;
      assert s[cut..] == front[cut..] + [s[|s| - 1]];
      assert s[cut..] == high + [Digit(n % 10)] <==> front[cut..] == high && s[|s| - 1] == Digit(n % 10) by {
        if s[cut..] == high + [Digit(n % 10)] {
          assert front[cut..] == s[cut..][..|high|];
        }
      }
    }
  }

  lemma OneDigit(s: string, n: nat)
    requires s != [] && n < 10
    ensures IsDecimal(s, n) <==> s[|s| - 1] == Digit(n) && forall i: nat :: i < |s| - 1 ==> s[i] == '0'
  {
    assert Itoa(n) == [Digit(n)] && s[|s| - 1..] == [s[|s| - 1]];
  }

  lemma {:induction false} ZerosAre(s: string)
    ensures Digits(s) == Some(0) <==> forall i: nat :: i < |s| ==> s[i] == '0'
  {
    if s != [] {
      ZerosAre(s[..|s| - 1]);
      assert s == s[..|s| - 1] + [s[|s| - 1]];
    }
  }

  /** The texts that are read as a port: the number in decimal, perhaps after zeros, and these after a plus sign. */
  lemma PortsAre(s: string, n: nat)
    requires n >= 1
    ensures Atoi(s) == Some(n) <==> IsDecimal(s, n) || (s != [] && s[0] == '+' && IsDecimal(s[1..], n))
  {
    DigitsAre(s, n);
    if s != [] {
      DigitsAre(s[1..], n);
    }
  }
}
