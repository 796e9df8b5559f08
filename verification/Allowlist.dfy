/**
 The list of directories that may be connected to: reading it, writing it out again, and
 asking it about a host. Text is ASCII.
 */
module Allowlist {
  import opened Options
  import opened Text

  /** How a text reads as an IP address: with a zone, or as the address printed in one way only. */
  datatype Literal = Zoned | Address(text: string)

  /** The texts that are addresses. */
  type Book = map<string, Literal>

  predicate IsAddressChar(c: char)
  {
    '0' <= c <= '9' || 'a' <= c <= 'f' || c == ':' || c == '.'
  }

  /**
   What is asked of the library that reads addresses: it reads back what it prints, as
   itself; it prints hexadecimal digits, colons and dots; a text without a colon is read as
   it stands; what has a colon has two; and a zone
   is announced by a percent sign.
   */
  ghost predicate IsBook(book: Book)
  {
    forall s :: s in book ==> IsEntry(book, s)
  }

  ghost predicate IsEntry(book: Book, s: string)
    requires s in book
  {
    match book[s]
    case Zoned => '%' in s
    case Address(t) =>
      && t in book && book[t] == Address(t)
      && t != [] && (forall i: nat :: i < |t| ==> IsAddressChar(t[i]))
      && (':' in t ==> Count(t, ':') > 1)
      && (':' !in s ==> t == s)
  }

  // ----- pieces of text

  function Count(s: string, c: char): (n: nat)
    ensures n > 0 <==> c in s
  {
    if s == [] then 0 else (if s[0] == c then 1 else 0) + Count(s[1..], c)
  }

  /** The first place of `c`, or the length of the text. */
  function Index(s: string, c: char): (i: nat)
    ensures i <= |s|
    ensures i < |s| ==> s[i] == c
    ensures i == |s| <==> c !in s
    ensures c !in s[..i]
  {
    if s == [] || s[0] == c then 0 else
      var i := 1 + Index(s[1..], c);
      assert s[..i] == [s[0]] + s[1..][..i - 1];
      i
  }

  lemma {:induction false} IndexIs(a: string, c: char, b: string)
    requires c !in a
    ensures Index(a + [c] + b, c) == |a|
  {
    var s := a + [c] + b;
    if a != [] {
      IndexIs(a[1..], c, b);
      assert s[1..] == a[1..] + [c] + b;
      assert s[0] == a[0] && a[0] in a;
    }
  }

  lemma {:induction false} CountJoin(a: string, b: string, c: char)
    ensures Count(a + b, c) == Count(a, c) + Count(b, c)
  {
    if a == [] {
      assert a + b == b;
    } else {
      CountJoin(a[1..], b, c);
      assert (a + b)[1..] == a[1..] + b;
    }
  }

  function Split(s: string, sep: char): (parts: seq<string>)
    ensures |parts| > 0
    ensures forall i: nat :: i < |parts| ==> sep !in parts[i]
    decreases |s|
  {
    var i := Index(s, sep);
    if i == |s| then [s] else [s[..i]] + Split(s[i + 1..], sep)
  }

  function Join(parts: seq<string>, sep: char): string
  {
    if parts == [] then [] else if |parts| == 1 then parts[0] else parts[0] + [sep] + Join(parts[1..], sep)
  }

  lemma {:induction false} SplitJoined(parts: seq<string>, sep: char)
    requires parts != [] && forall i: nat :: i < |parts| ==> sep !in parts[i]
    ensures Split(Join(parts, sep), sep) == parts
  {
    if |parts| == 1 {
      SplitWhole(parts[0], sep);
      assert parts == [parts[0]];
    } else {
      SplitJoined(parts[1..], sep);
      SplitFirst(parts[0], sep, Join(parts[1..], sep));
      assert parts == [parts[0]] + parts[1..];
    }
  }

  lemma SplitWhole(s: string, sep: char)
    requires sep !in s
    ensures Split(s, sep) == [s]
  {
  }

  lemma SplitFirst(a: string, sep: char, rest: string)
    requires sep !in a
    ensures Split(a + [sep] + rest, sep) == [a] + Split(rest, sep)
  {
    IndexIs(a, sep, rest);
    var s := a + [sep] + rest;
    assert s[..|a|] == a && s[|a| + 1..] == rest;
  }

  // ----- port numbers

  function Digit(n: nat): (c: char)
    requires n < 10
    ensures '0' <= c <= '9'
  {
    ('0' as int + n) as char
  }

  function Itoa(n: nat): (s: string)
    ensures s != [] && forall i: nat :: i < |s| ==> '0' <= s[i] <= '9'
  {
    if n < 10 then [Digit(n)] else Itoa(n / 10) + [Digit(n % 10)]
  }

  function Digits(s: string): Option<nat>
  {
    if s == [] then Some(0)
    else if !('0' <= s[|s| - 1] <= '9') then None
    else match Digits(s[..|s| - 1])
      case None => None
      case Some(n) => Some(10 * n + (s[|s| - 1] as int - '0' as int))
  }

  /** A decimal number, with or without a sign; one too large to hold is out of a port's range as well. */
  function Atoi(s: string): Option<int>
  {
    var signed := s != [] && (s[0] == '+' || s[0] == '-');
    var digits := if signed then s[1..] else s;
    if digits == [] then None
    else match Digits(digits)
      case None => None
      case Some(n) =>
        var m: int := n;
        Some(if signed && s[0] == '-' then -m else m)
  }

  lemma {:induction false} DigitsOf(n: nat)
    ensures Digits(Itoa(n)) == Some(n)
  {
    if n < 10 {
      assert Itoa(n)[..0] == [];
    } else {
      DigitsOf(n / 10);
      assert Itoa(n)[..|Itoa(n)| - 1] == Itoa(n / 10);
    }
  }

  lemma AtoiOf(n: nat)
    ensures Atoi(Itoa(n)) == Some(n)
  {
    DigitsOf(n);
  }

  // ----- host names

  predicate IsNameChar(c: char)
  {
    'a' <= c <= 'z' || '0' <= c <= '9' || c == '-' || c == '_'
  }

  predicate IsLabel(s: string)
  {
    0 < |s| <= 63 && forall i: nat :: i < |s| ==> IsNameChar(s[i])
  }

  predicate IsName(s: string)
  {
    0 < |s| <= 253 && AreLabels(Split(s, '.'))
  }

  predicate AreLabels(parts: seq<string>)
  {
    forall i: nat :: i < |parts| ==> IsLabel(parts[i])
  }

  function TrimDot(s: string): string
  {
    if s != [] && s[|s| - 1] == '.' then s[..|s| - 1] else s
  }

  /** The name in lower case and without the dot that makes it absolute, if it is a name. */
  function NormalName(h: string): Option<string>
  {
    var n := Lower(TrimDot(h));
    if IsName(n) then Some(n) else None
  }

  method NormaliseName(h: string) returns (r: Option<string>)
    ensures r == NormalName(h)
  {
    var h := TrimDot(h);
    if h == "" || |h| > 253 {
      return None;
    }
    h := Lower(h);
    var labels := Split(h, '.');
    for k := 0 to |labels|
      invariant forall i: nat :: i < k ==> IsLabel(labels[i])
    {
      var part := labels[k];
      if part == "" || |part| > 63 {
        return None;
      }
      for i := 0 to |part|
        invariant forall j: nat :: j < i ==> IsNameChar(part[j])
      {
        var c := part[i];
        if !('a' <= c <= 'z' || '0' <= c <= '9' || c == '-' || c == '_') {
          assert !IsNameChar(part[i]);
          return None;
        }
      }
    }
    return Some(h);
  }

  /** Labels and dots between them. */
  ghost predicate Dotted(s: string)
  {
    && s != [] && IsNameChar(s[|s| - 1])
    && forall i: nat :: i < |s| ==> IsNameChar(s[i]) || s[i] == '.'
  }

  lemma DottedJoin(a: string, b: string)
    requires Dotted(a) && Dotted(b)
    ensures Dotted(a + ['.'] + b)
  {
  }

  lemma {:induction false} NameChars(s: string)
    requires AreLabels(Split(s, '.'))
    ensures Dotted(s)
    decreases |s|
  {
    var k := Index(s, '.');
    var parts := Split(s, '.');
    if k == |s| {
      assert parts == [s] && IsLabel(parts[0]);
    } else {
      var first, rest := s[..k], s[k + 1..];
      var more := Split(rest, '.');
      assert parts == [first] + more && IsLabel(parts[0]);
      forall i: nat | i < |more|
        ensures IsLabel(more[i])
      {
        assert parts[i + 1] == more[i];
      }
      NameChars(rest);
      assert s == first + ['.'] + rest;
      DottedJoin(first, rest);
    }
  }

  /** Normalising a name again changes nothing. */
  lemma NormalTwice(h: string)
    requires NormalName(h).Some?
    ensures NormalName(NormalName(h).value) == NormalName(h)
  {
    var n := NormalName(h).value;
    NameChars(n);
    LowerTwice(TrimDot(h));
    assert TrimDot(n) == n;
  }

  // ----- targets

  datatype Target = Target(host: string, port: nat, isAddress: bool)

  function Unbracket(h: string): string
  {
    if |h| >= 2 && h[0] == '[' && h[|h| - 1] == ']' then h[1..|h| - 1] else h
  }

  /** A host as it is compared: an address as it is printed, or a name as it is normalised. */
  function ParseHost(book: Book, host: string): Option<string>
  {
    var h := Unbracket(TrimSpace(host));
    if '[' in h || ']' in h then None
    else if h in book then
      (match book[h]
       case Zoned => None
       case Address(t) => Some(t))
    else NormalName(h)
  }

  function ParseTarget(book: Book, host: string, port: int): Option<Target>
  {
    if TrimSpace(host) == [] || port < 1 || port > 65535 then None
    else match ParseHost(book, host)
      case None => None
      case Some(h) => Some(Target(h, port, Unbracket(TrimSpace(host)) in book))
  }

  predicate IsHostChar(c: char)
  {
    IsNameChar(c) || c == '.' || c == ':'
  }

  /** A text of a host's characters, with no colon or with more than one. */
  ghost predicate HostText(h: string)
  {
    && h != [] && (forall i: nat :: i < |h| ==> IsHostChar(h[i]))
    && (':' in h ==> Count(h, ':') > 1)
  }

  /** A host as reading one leaves it. */
  ghost predicate Settled(book: Book, h: string)
  {
    HostText(h) && ParseHost(book, h) == Some(h)
  }

  lemma HostHasNoBracket(h: string)
    requires HostText(h)
    ensures '[' !in h && ']' !in h && !IsTrimmed(h[0]) && !IsTrimmed(h[|h| - 1])
  {
    assert forall i: nat :: i < |h| ==> h[i] != '[' && h[i] != ']' && !IsTrimmed(h[i]);
  }

  lemma HostTextIsPlain(h: string)
    requires HostText(h)
    ensures TrimSpace(h) == h && Unbracket(h) == h && '[' !in h && ']' !in h
  {
    HostHasNoBracket(h);
    TrimmedStays(h);
    assert h[0] in h;
  }

  lemma AddressSettles(book: Book, s: string)
    requires IsBook(book) && s in book && book[s].Address?
    ensures Settled(book, book[s].text)
  {
    var t := book[s].text;
    assert IsEntry(book, s);
    assert forall i: nat :: i < |t| ==> IsAddressChar(t[i]) ==> IsHostChar(t[i]);
    HostTextIsPlain(t);
  }

  lemma NameSettles(book: Book, h: string)
    requires IsBook(book) && NormalName(h).Some?
    ensures Settled(book, NormalName(h).value)
  {
    var t := NormalName(h).value;
    NormalTwice(h);
    NameChars(t);
    NameIsHostText(t);
    NameReadsBack(book, t);
  }

  lemma NameReadsBack(book: Book, t: string)
    requires IsBook(book) && HostText(t) && ':' !in t && '%' !in t && NormalName(t) == Some(t)
    ensures ParseHost(book, t) == Some(t)
  {
    HostTextIsPlain(t);
    if t in book {
      assert IsEntry(book, t);
    }
  }

  lemma NameIsHostText(t: string)
    requires Dotted(t)
    ensures HostText(t) && ':' !in t && '%' !in t
  {
    assert forall i: nat :: i < |t| ==> t[i] != ':' && t[i] != '%' && IsHostChar(t[i]);
  }

  /** Reading a host a second time changes nothing. */
  lemma HostSettles(book: Book, host: string)
    requires IsBook(book) && ParseHost(book, host).Some?
    ensures Settled(book, ParseHost(book, host).value)
  {
    var h := Unbracket(TrimSpace(host));
    if h in book {
      AddressSettles(book, h);
    } else {
      NameSettles(book, h);
    }
  }

  // ----- entries of the list

  datatype Endpoint = Endpoint(host: string, port: nat, anyPort: bool)

  /** A host and the port after it; no port where there is none, and nothing where it is neither. */
  function SplitHostPort(s: string): Option<(string, string)>
  {
    if s != [] && s[0] == '[' then
      var end := Index(s, ']');
      if end == |s| then None
      else
        var tail := s[end + 1..];
        if tail == [] then Some((s[1..end], []))
        else if tail[0] == ':' then Some((s[1..end], tail[1..]))
        else None
    else if Count(s, ':') > 1 then Some((s, []))
    else
      var colon := Index(s, ':');
      if colon < |s| then Some((s[..colon], s[colon + 1..])) else Some((s, []))
  }

  /** Where "://" first is, or the length of the text. */
  function SchemeEnd(s: string): (i: nat)
    ensures i <= |s|
    ensures i < |s| ==> '/' in s && |s| - i >= 3
  {
    if s == [] then 0
    else if |s| >= 3 && s[..3] == "://" then assert s[1] == '/'; 0
    else 1 + SchemeEnd(s[1..])
  }

  function EndpointAt(book: Book, host: string, port: Option<int>): Option<Endpoint>
  {
    match port
    case None => None
    case Some(p) =>
      match ParseTarget(book, host, p)
      case None => None
      case Some(t) => Some(Endpoint(t.host, t.port, false))
  }

  /** An ldap or ldaps URL that is a host and perhaps a port, and nothing else. */
  function ParseUrl(book: Book, raw: string, end: nat): Option<Endpoint>
    requires end + 3 <= |raw|
  {
    var scheme := Lower(raw[..end]);
    var rest := raw[end + 3..];
    if scheme != "ldap" && scheme != "ldaps" then None
    else if '/' in rest || '?' in rest || '#' in rest || '@' in rest then None
    else match SplitHostPort(rest)
      case None => None
      case Some((host, port)) =>
        EndpointAt(book, host, if port == [] then Some(if scheme == "ldap" then 389 else 636) else Atoi(port))
  }

  function ParseEndpoint(book: Book, s: string): Option<Endpoint>
  {
    var raw := TrimSpace(s);
    if raw == [] then None
    else if SchemeEnd(raw) < |raw| then ParseUrl(book, raw, SchemeEnd(raw))
    else ParsePlain(book, raw)
  }

  /** A host and perhaps a port; without one, the entry is for every port. */
  function ParsePlain(book: Book, raw: string): Option<Endpoint>
  {
    match SplitHostPort(raw)
    case None => None
    case Some((host, port)) =>
      if port == [] then
        (match ParseTarget(book, host, 389)
         case None => None
         case Some(t) => Some(Endpoint(t.host, 0, true)))
      else EndpointAt(book, host, Atoi(port))
  }

  function String(e: Endpoint): string
  {
    if e.anyPort then e.host
    else if ':' in e.host || '%' in e.host then "[" + e.host + "]:" + Itoa(e.port)
    else e.host + ":" + Itoa(e.port)
  }

  /** An entry as reading one leaves it. */
  ghost predicate Written(book: Book, e: Endpoint)
  {
    && Settled(book, e.host)
    && if e.anyPort then e.port == 0 else 1 <= e.port <= 65535
  }

  lemma TargetSettles(book: Book, host: string, port: int)
    requires IsBook(book) && ParseTarget(book, host, port).Some?
    ensures var t := ParseTarget(book, host, port).value;
      Settled(book, t.host) && t.port == port && 1 <= port <= 65535
  {
    HostSettles(book, host);
  }

  lemma EndpointAtSettles(book: Book, host: string, port: Option<int>)
    requires IsBook(book) && EndpointAt(book, host, port).Some?
    ensures Written(book, EndpointAt(book, host, port).value)
  {
    TargetSettles(book, host, port.value);
  }

  lemma UrlSettles(book: Book, raw: string, end: nat)
    requires IsBook(book) && end + 3 <= |raw| && ParseUrl(book, raw, end).Some?
    ensures Written(book, ParseUrl(book, raw, end).value)
  {
    var (host, port) := SplitHostPort(raw[end + 3..]).value;
    var plain := if Lower(raw[..end]) == "ldap" then 389 else 636;
    EndpointAtSettles(book, host, if port == [] then Some(plain) else Atoi(port));
  }

  lemma PlainSettles(book: Book, raw: string)
    requires IsBook(book) && ParsePlain(book, raw).Some?
    ensures Written(book, ParsePlain(book, raw).value)
  {
    var (host, port) := SplitHostPort(raw).value;
    if port == [] {
      TargetSettles(book, host, 389);
    } else {
      EndpointAtSettles(book, host, Atoi(port));
    }
  }

  /** Every entry that is read has a host that reads as itself, and a port in range or none. */
  lemma EndpointSettles(book: Book, s: string)
    requires IsBook(book)
    ensures ParseEndpoint(book, s).Some? ==> Written(book, ParseEndpoint(book, s).value)
  {
    var raw := TrimSpace(s);
    if ParseEndpoint(book, s).Some? {
      if SchemeEnd(raw) < |raw| {
        UrlSettles(book, raw, SchemeEnd(raw));
      } else {
        PlainSettles(book, raw);
      }
    }
  }

  // ----- writing an entry and reading it again

  predicate IsEntryChar(c: char)
  {
    IsHostChar(c) || c == '[' || c == ']'
  }

  /** The characters of an entry as it is written. */
  ghost predicate EntryText(s: string)
  {
    s != [] && forall i: nat :: i < |s| ==> IsEntryChar(s[i])
  }

  lemma EntryTextJoin(a: string, b: string)
    requires EntryText(a) && EntryText(b)
    ensures EntryText(a + b)
  {
  }

  lemma PortText(n: nat)
    ensures EntryText(Itoa(n))
  {
    var s := Itoa(n);
    assert forall i: nat :: i < |s| ==> IsEntryChar(s[i]);
  }

  lemma HostIsEntryText(h: string)
    requires HostText(h)
    ensures EntryText(h)
  {
  }

  lemma PrintedText(e: Endpoint)
    requires HostText(e.host)
    ensures EntryText(String(e))
  {
    var h := e.host;
    HostIsEntryText(h);
    if !e.anyPort {
      PortText(e.port);
      EntryTextJoin("[", h);
      EntryTextJoin("[" + h, "]:");
      EntryTextJoin("[" + h + "]:", Itoa(e.port));
      EntryTextJoin(h, ":");
      EntryTextJoin(h + ":", Itoa(e.port));
    }
  }

  lemma NoSlash(s: string)
    requires EntryText(s)
    ensures '/' !in s && ',' !in s && TrimSpace(s) == s && SchemeEnd(s) == |s|
  {
    assert forall i: nat :: i < |s| ==> s[i] != '/' && s[i] != ',' && !IsTrimmed(s[i]);
    TrimmedStays(s);
  }

  lemma NoColonInDigits(n: nat)
    ensures ':' !in Itoa(n)
  {
    assert forall i: nat :: i < |Itoa(n)| ==> Itoa(n)[i] != ':';
  }

  lemma SplitBracketed(h: string, port: string)
    requires HostText(h) && port != []
    ensures SplitHostPort("[" + h + "]:" + port) == Some((h, port))
  {
    HostHasNoBracket(h);
    var s := "[" + h + "]:" + port;
    var front, tail := "[" + h, ":" + port;
    assert s == front + [']'] + tail;
    IndexIs(front, ']', tail);
    assert s[1..|front|] == h && s[|front| + 1..] == tail && tail[1..] == port;
  }

  lemma SplitBare(h: string, port: string)
    requires HostText(h) && ':' !in h && ':' !in port && port != []
    ensures SplitHostPort(h + ":" + port) == Some((h, port))
  {
    HostHasNoBracket(h);
    assert h[0] in h;
    var s := h + ":" + port;
    assert s == h + [':'] + port;
    IndexIs(h, ':', port);
    CountJoin(h + [':'], port, ':');
    CountJoin(h, [':'], ':');
    assert Count([':'], ':') == 1;
    assert s[..|h|] == h && s[|h| + 1..] == port;
  }

  lemma SplitHostOnly(h: string)
    requires HostText(h)
    ensures SplitHostPort(h) == Some((h, []))
  {
    HostHasNoBracket(h);
    assert h[0] in h;
  }

  lemma PrintedSplits(e: Endpoint)
    requires HostText(e.host)
    ensures SplitHostPort(String(e)) == Some((e.host, if e.anyPort then [] else Itoa(e.port)))
  {
    if e.anyPort {
      SplitHostOnly(e.host);
    } else {
      NoColonInDigits(e.port);
      HostHasNoPercent(e.host);
      var port := Itoa(e.port);
      if ':' in e.host {
        SplitBracketed(e.host, port);
      } else {
        SplitBare(e.host, port);
      }
    }
  }

  lemma HostHasNoPercent(h: string)
    requires HostText(h)
    ensures '%' !in h
  {
    assert forall i: nat :: i < |h| ==> h[i] != '%';
  }

  lemma SettledTarget(book: Book, h: string, port: int)
    requires Settled(book, h) && 1 <= port <= 65535
    ensures ParseTarget(book, h, port) == Some(Target(h, port, h in book))
  {
    HostTextIsPlain(h);
  }

  lemma PlainReadsAs(book: Book, s: string, e: Endpoint, port: string)
    requires Written(book, e) && SplitHostPort(s) == Some((e.host, port))
    requires if e.anyPort then port == [] else port != [] && Atoi(port) == Some(e.port)
    ensures ParsePlain(book, s) == Some(e)
  {
    var q := if e.anyPort then 389 else e.port;
    SettledTarget(book, e.host, q);
    PlainIs(book, s, e, port, Target(e.host, q, e.host in book));
  }

  lemma PlainIs(book: Book, s: string, e: Endpoint, port: string, t: Target)
    requires SplitHostPort(s) == Some((e.host, port)) && t.host == e.host
    requires ParseTarget(book, e.host, t.port) == Some(t)
    requires if e.anyPort then port == [] && e.port == 0 && t.port == 389
      else port != [] && Atoi(port) == Some(t.port) && t.port == e.port
    ensures ParsePlain(book, s) == Some(e)
  {
    assert !e.anyPort ==> EndpointAt(book, e.host, Atoi(port)) == Some(e);
  }

  lemma ReadsAs(book: Book, s: string, e: Endpoint, port: string)
    requires Written(book, e) && s != [] && TrimSpace(s) == s && SchemeEnd(s) == |s|
    requires SplitHostPort(s) == Some((e.host, port))
    requires if e.anyPort then port == [] else port != [] && Atoi(port) == Some(e.port)
    ensures ParseEndpoint(book, s) == Some(e)
  {
    PlainReadsAs(book, s, e, port);
  }

  lemma WrittenReadsBack(book: Book, e: Endpoint)
    requires Written(book, e)
    ensures ParseEndpoint(book, String(e)) == Some(e)
  {
    var s := String(e);
    PrintedText(e);
    NoSlash(s);
    PrintedSplits(e);
    if !e.anyPort {
      AtoiOf(e.port);
    }
    ReadsAs(book, s, e, if e.anyPort then [] else Itoa(e.port));
  }

  /** An entry that was read, written out and read again is the same entry. */
  lemma EndpointRoundTrip(book: Book, s: string)
    requires IsBook(book)
    ensures var e := ParseEndpoint(book, s); e.Some? ==> ParseEndpoint(book, String(e.value)) == e
  {
    var e := ParseEndpoint(book, s);
    EndpointSettles(book, s);
    if e.Some? {
      WrittenReadsBack(book, e.value);
    }
  }

  // ----- the list

  /** What a part of the list is. */
  datatype Part = Blank | Wrong | Entry(endpoint: Endpoint)

  function ReadPart(book: Book, part: string): Part
  {
    if TrimSpace(part) == [] then Blank
    else match ParseEndpoint(book, part)
      case None => Wrong
      case Some(e) => Entry(e)
  }

  function ReadParts(book: Book, texts: seq<string>): (parts: seq<Part>)
    ensures |parts| == |texts|
  {
    seq(|texts|, i requires 0 <= i < |texts| => ReadPart(book, texts[i]))
  }

  /** The entries among the first `n` parts, if none of them is wrong. */
  function Entries(parts: seq<Part>, n: nat): Option<seq<Endpoint>>
    requires n <= |parts|
  {
    if n == 0 then Some([])
    else match Entries(parts, n - 1)
      case None => None
      case Some(es) =>
        match parts[n - 1]
        case Blank => Some(es)
        case Wrong => None
        case Entry(e) => Some(es + [e])
  }

  function ParseList(book: Book, s: string): Option<seq<Endpoint>>
  {
    var parts := ReadParts(book, Split(s, ','));
    Entries(parts, |parts|)
  }

  lemma {:induction false} EntriesFail(parts: seq<Part>, k: nat, n: nat)
    requires k <= n <= |parts| && Entries(parts, k).None?
    ensures Entries(parts, n).None?
  {
    if k < n {
      EntriesFail(parts, k, n - 1);
    }
  }

  method CollectEntries(parts: seq<Part>) returns (list: Option<seq<Endpoint>>)
    ensures list == Entries(parts, |parts|)
  {
    var endpoints: seq<Endpoint> := [];
    for k := 0 to |parts|
      invariant Entries(parts, k) == Some(endpoints)
    {
      if parts[k].Blank? {
        continue;
      }
      if parts[k].Wrong? {
        EntriesFail(parts, k + 1, |parts|);
        return None;
      }
      endpoints := endpoints + [parts[k].endpoint];
    }
    return Some(endpoints);
  }

  method Parse(book: Book, s: string) returns (list: Option<seq<Endpoint>>)
    ensures list == ParseList(book, s)
  {
    list := CollectEntries(ReadParts(book, Split(s, ',')));
  }

  function Strings(endpoints: seq<Endpoint>): (texts: seq<string>)
    ensures |texts| == |endpoints|
  {
    seq(|endpoints|, i requires 0 <= i < |endpoints| => String(endpoints[i]))
  }

  ghost predicate AllWritten(book: Book, endpoints: seq<Endpoint>)
  {
    forall i: nat {:trigger Written(book, endpoints[i])} :: i < |endpoints| ==> Written(book, endpoints[i])
  }

  lemma PartReads(book: Book, text: string)
    requires IsBook(book)
    ensures ReadPart(book, text).Entry? ==> Written(book, ReadPart(book, text).endpoint)
  {
    EndpointSettles(book, text);
  }

  lemma {:induction false} EntriesAreParts(parts: seq<Part>, n: nat)
    requires n <= |parts| && Entries(parts, n).Some?
    ensures forall e :: e in Entries(parts, n).value ==> Entry(e) in parts
  {
    if n > 0 {
      EntriesAreParts(parts, n - 1);
    }
  }

  lemma ListWritten(book: Book, s: string)
    requires IsBook(book) && ParseList(book, s).Some?
    ensures AllWritten(book, ParseList(book, s).value)
  {
    var texts := Split(s, ',');
    var parts := ReadParts(book, texts);
    var endpoints := ParseList(book, s).value;
    EntriesAreParts(parts, |parts|);
    forall i: nat {:trigger Written(book, endpoints[i])} | i < |endpoints|
      ensures Written(book, endpoints[i])
    {
      assert endpoints[i] in endpoints;
      var k: nat :| k < |parts| && parts[k] == Entry(endpoints[i]);
      PartReads(book, texts[k]);
    }
  }

  lemma StringIsPart(book: Book, e: Endpoint)
    requires Written(book, e)
    ensures ReadPart(book, String(e)) == Entry(e) && ',' !in String(e)
  {
    PrintedText(e);
    NoSlash(String(e));
    WrittenReadsBack(book, e);
  }

  lemma {:induction false} AllEntries(parts: seq<Part>, endpoints: seq<Endpoint>, n: nat)
    requires |parts| == |endpoints| && n <= |parts|
    requires forall i: nat :: i < |parts| ==> parts[i] == Entry(endpoints[i])
    ensures Entries(parts, n) == Some(endpoints[..n])
  {
    if n > 0 {
      AllEntries(parts, endpoints, n - 1);
      assert endpoints[..n] == endpoints[..n - 1] + [endpoints[n - 1]];
    }
  }

  /** A list that was read, written out with commas and read again is the same list. */
  lemma ListRoundTrip(book: Book, s: string)
    requires IsBook(book)
    ensures var list := ParseList(book, s); list.Some? ==> ParseList(book, Join(Strings(list.value), ',')) == list
  {
    var list := ParseList(book, s);
    if list.Some? {
      ListWritten(book, s);
      WrittenListReadsBack(book, list.value);
    }
  }

  lemma WrittenListReadsBack(book: Book, endpoints: seq<Endpoint>)
    requires AllWritten(book, endpoints)
    ensures ParseList(book, Join(Strings(endpoints), ',')) == Some(endpoints)
  {
    if endpoints == [] {
      NothingReadsBack(book, Strings(endpoints));
    } else {
      var texts := Strings(endpoints);
      var parts := ReadParts(book, texts);
      forall i: nat | i < |texts|
        ensures ',' !in texts[i] && parts[i] == Entry(endpoints[i])
      {
        assert Written(book, endpoints[i]);
        StringIsPart(book, endpoints[i]);
      }
      SplitJoined(texts, ',');
      AllEntries(parts, endpoints, |parts|);
      assert endpoints[..|endpoints|] == endpoints;
    }
  }

  lemma NothingReadsBack(book: Book, texts: seq<string>)
    requires texts == []
    ensures ParseList(book, Join(texts, ',')) == Some([])
  {
    SplitWhole([], ',');
    var parts := ReadParts(book, [""]);
    assert parts[0] == Blank;
    assert Entries(parts, 0) == Some([]);
  }

  // ----- asking the list

  predicate Matches(e: Endpoint, t: Target)
  {
    e.host == t.host && (e.anyPort || e.port == t.port)
  }

  predicate Allows(endpoints: seq<Endpoint>, t: Target)
  {
    endpoints == [] || exists i: nat :: i < |endpoints| && Matches(endpoints[i], t)
  }

  datatype Verdict = Allowed | Malformed | NotAllowed

  /** A target that is none is refused whatever the list says; an empty list allows every other. */
  method Check(book: Book, endpoints: seq<Endpoint>, host: string, port: int) returns (v: Verdict)
    ensures v.Malformed? <==> ParseTarget(book, host, port).None?
    ensures var t := ParseTarget(book, host, port);
      v.Allowed? <==> t.Some? && Allows(endpoints, t.value)
  {
    var t := ParseTarget(book, host, port);
    if t.None? {
      return Malformed;
    }
    var allowed := Ask(endpoints, t.value);
    v := if allowed then Allowed else NotAllowed;
  }

  method Ask(endpoints: seq<Endpoint>, t: Target) returns (allowed: bool)
    ensures allowed <==> Allows(endpoints, t)
  {
    if endpoints == [] {
      return true;
    }
    for k := 0 to |endpoints|
      invariant forall i: nat :: i < k ==> !Matches(endpoints[i], t)
    {
      if Matches(endpoints[k], t) {
        return true;
      }
    }
    return false;
  }

  /** An entry allows exactly the targets whose host reads as the entry's host does, on its port. */
  lemma EntryAllows(book: Book, entry: string, host: string, port: int)
    requires IsBook(book)
    ensures var e, t := ParseEndpoint(book, entry), ParseTarget(book, host, port);
      e.Some? && t.Some? ==>
        (Matches(e.value, t.value) <==>
         ParseHost(book, host) == ParseHost(book, e.value.host) && (e.value.anyPort || e.value.port == port))
  {
    EndpointSettles(book, entry);
  }

  /** Nothing around the host is taken off, and it is not an address. */
  ghost predicate Bare(book: Book, h: string)
  {
    TrimSpace(h) == h && Unbracket(h) == h && '[' !in h && ']' !in h && h !in book
  }

  /** The case of a name, and a dot after it, make no difference. */
  lemma SpellingsAgree(book: Book, a: string, b: string)
    requires Bare(book, a) && Bare(book, b)
    requires a != [] && a[|a| - 1] != '.'
    requires Lower(b) == Lower(a) || Lower(b) == Lower(a) + "."
    ensures ParseHost(book, a) == ParseHost(book, b)
  {
    NormalNamesAgree(a, b);
  }

  lemma NormalNamesAgree(a: string, b: string)
    requires a != [] && a[|a| - 1] != '.'
    requires Lower(b) == Lower(a) || Lower(b) == Lower(a) + "."
    ensures NormalName(a) == NormalName(b)
  {
    LastLower(a);
    LastLower(b);
    if Lower(b) != Lower(a) {
      LowerFront(b);
      assert Lower(b)[..|b| - 1] == Lower(a);
    }
    assert Lower(TrimDot(b)) == Lower(TrimDot(a));
  }

  lemma LastLower(s: string)
    ensures s != [] ==> (Lower(s)[|s| - 1] == '.' <==> s[|s| - 1] == '.')
  {
  }

  lemma LowerFront(s: string)
    requires s != []
    ensures Lower(s)[..|s| - 1] == Lower(s[..|s| - 1])
  {
  }
}
