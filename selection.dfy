/**
 * The start-up selection in webshare's main: which share links are shown as
 * QR codes.  Every IPv4 interface address is a candidate; a candidate whose
 * dotted-decimal text starts with one of the -q prefixes has its link
 * presented (once, whatever the number of matching prefixes); if no
 * candidate matched, the link of the first public candidate is presented
 * instead, if there is one.  Presenting a link stands for rendering its QR
 * code, and is modelled as appending the link to an output sequence.
 */
module Selection {
  import opened Wrappers
  import opened Bits
  import opened Net
  import opened PrivateRanges
  import opened Prefixes

  /** An interface address: a network address with its mask, or an address of some other kind. */
  datatype InterfaceAddr = IPNetAddr(ip: IP) | OtherAddr

  // ---------------------------------------------------------------------------
  // Text of addresses and links
  // ---------------------------------------------------------------------------

  predicate IsDigit(c: char) {
    '0' <= c <= '9'
  }

  predicate AllDigits(s: string) {
    forall i :: 0 <= i < |s| ==> IsDigit(s[i])
  }

  /** The decimal digit for 0 <= d < 10. */
  function DigitChar(d: nat): (c: char)
    requires d < 10
    ensures IsDigit(c) && (c - '0') as int == d
  {
    ('0' as int + d) as char
  }

  /** The decimal text of `n`: no sign, no leading zero except for 0 itself. */
  function DecimalDigits(n: nat): (s: string)
    ensures |s| > 0 && AllDigits(s)
    ensures |s| > 1 ==> s[0] != '0'
  {
    if n < 10 then [DigitChar(n)] else DecimalDigits(n / 10) + [DigitChar(n % 10)]
  }

  /** The number a string of decimal digits stands for: the reading side of DecimalDigits. */
  function DigitsValue(s: string): nat
    requires AllDigits(s)
  {
    if s == [] then 0 else DigitsValue(s[..|s| - 1]) * 10 + (s[|s| - 1] - '0') as int
  }

  /** Reading back the decimal text of `n` gives `n`. */
  lemma {:induction false} DecimalRoundTrip(n: nat)
    ensures DigitsValue(DecimalDigits(n)) == n
  {
    if n >= 10 {
      DecimalRoundTrip(n / 10);
      var s := DecimalDigits(n);
      assert s[..|s| - 1] == DecimalDigits(n / 10);
    }
  }

  /** fmt's %d: an optional minus sign, then the decimal digits of the magnitude. */
  function FormatInt(x: int): (s: string)
    ensures x < 0 ==> |s| > 1 && s[0] == '-' && AllDigits(s[1..]) && s[1] != '0'
    ensures x >= 0 ==> |s| > 0 && AllDigits(s) && (|s| > 1 ==> s[0] != '0')
  {
    if x < 0 then "-" + DecimalDigits(-x) else DecimalDigits(x)
  }

  /** The reading side of FormatInt. */
  function ParseInt(s: string): int
    requires (|s| > 1 && s[0] == '-' && AllDigits(s[1..])) || AllDigits(s)
  {
    if |s| > 1 && s[0] == '-' && AllDigits(s[1..]) then -(DigitsValue(s[1..]) as int) else DigitsValue(s)
  }

  /** Reading back the text of any port number, negative ones included, gives the number. */
  lemma FormatIntRoundTrip(x: int)
    ensures ParseInt(FormatInt(x)) == x
  {
    if x < 0 {
      DecimalRoundTrip(-x);
      assert FormatInt(x)[1..] == DecimalDigits(-x);
    } else {
      DecimalRoundTrip(x);
    }
  }

  /** The parts, with `sep` between each two. */
  function Join(parts: seq<string>, sep: char): string
    requires |parts| > 0
  {
    if |parts| == 1 then parts[0] else parts[0] + [sep] + Join(parts[1..], sep)
  }

  /** The decimal texts of the four octets. */
  function Octets(a: IP): (ds: seq<string>)
    requires |a| == IPv4Len
    ensures |ds| == 4
  {
    [DecimalDigits(a[0] as nat), DecimalDigits(a[1] as nat), DecimalDigits(a[2] as nat), DecimalDigits(a[3] as nat)]
  }

  /** IP.String() of an IPv4 address: the four octets in decimal, separated by dots. */
  function Dotted(a: IP): string
    requires |a| == IPv4Len
  {
    Join(Octets(a), '.')
  }

  /** The share link of an IPv4 address: "http://<dotted>:<port>". */
  function Link(a: IP, port: int): string
    requires |a| == IPv4Len
  {
    "http://" + Dotted(a) + ":" + FormatInt(port)
  }

  /** The position of the first `c` in `s`, or |s| if there is none. */
  function IndexOf(s: string, c: char): (k: nat)
    ensures k <= |s|
    ensures forall i :: 0 <= i < k ==> s[i] != c
    ensures k < |s| ==> s[k] == c
  {
    if s == [] || s[0] == c then 0 else 1 + IndexOf(s[1..], c)
  }

  /** The first `c` in `x + [c] + y`, when `x` holds none, is right after `x`. */
  lemma {:induction false} IndexOfAfter(x: string, y: string, c: char)
    requires forall i :: 0 <= i < |x| ==> x[i] != c
    ensures IndexOf(x + [c] + y, c) == |x|
    decreases |x|
  {
    if x != [] {
      assert (x + [c] + y)[1..] == x[1..] + [c] + y;
      IndexOfAfter(x[1..], y, c);
    }
  }

  /** When neither `x` nor `x'` holds the character `c`, `x + [c] + y` determines `x` and `y`. */
  lemma SplitAtFirst(x: string, y: string, x': string, y': string, c: char)
    requires forall i :: 0 <= i < |x| ==> x[i] != c
    requires forall i :: 0 <= i < |x'| ==> x'[i] != c
    requires x + [c] + y == x' + [c] + y'
    ensures x == x' && y == y'
  {
    var s := x + [c] + y;
    IndexOfAfter(x, y, c);
    IndexOfAfter(x', y', c);
    assert x == s[..|x|] == x';
    assert y == s[|x| + 1..] == y';
  }

  /** Joining parts that do not hold the separator loses nothing: equal joins of as many parts have equal parts. */
  lemma {:induction false} JoinInjective(ps: seq<string>, qs: seq<string>, sep: char)
    requires |ps| == |qs| > 0
    requires forall k, i :: 0 <= k < |ps| && 0 <= i < |ps[k]| ==> ps[k][i] != sep
    requires forall k, i :: 0 <= k < |qs| && 0 <= i < |qs[k]| ==> qs[k][i] != sep
    requires Join(ps, sep) == Join(qs, sep)
    ensures ps == qs
  {
    if |ps| > 1 {
      SplitAtFirst(ps[0], Join(ps[1..], sep), qs[0], Join(qs[1..], sep), sep);
      JoinInjective(ps[1..], qs[1..], sep);
      assert ps == [ps[0]] + ps[1..];
      assert qs == [qs[0]] + qs[1..];
    }
  }

  /** Decimal texts of different numbers differ. */
  lemma DecimalInjective(m: nat, n: nat)
    requires DecimalDigits(m) == DecimalDigits(n)
    ensures m == n
  {
    DecimalRoundTrip(m);
    DecimalRoundTrip(n);
  }

  /** The octet texts hold digits only. */
  lemma OctetsHaveNo(a: IP, c: char)
    requires |a| == IPv4Len && !IsDigit(c)
    ensures forall k, i :: 0 <= k < |Octets(a)| && 0 <= i < |Octets(a)[k]| ==> Octets(a)[k][i] != c
  {
    var ds := Octets(a);
    forall k, i | 0 <= k < |ds| && 0 <= i < |ds[k]| ensures ds[k][i] != c {
      assert IsDigit(ds[k][i]);
    }
  }

  /** Different IPv4 addresses have different dotted texts. */
  lemma DottedInjective(a: IP, b: IP)
    requires |a| == IPv4Len && |b| == IPv4Len
    requires Dotted(a) == Dotted(b)
    ensures a == b
  {
    OctetsHaveNo(a, '.');
    OctetsHaveNo(b, '.');
    JoinInjective(Octets(a), Octets(b), '.');
    DecimalInjective(a[0] as nat, b[0] as nat);
    DecimalInjective(a[1] as nat, b[1] as nat);
    DecimalInjective(a[2] as nat, b[2] as nat);
    DecimalInjective(a[3] as nat, b[3] as nat);
    ByteValueInjective(a[0], b[0]);
    ByteValueInjective(a[1], b[1]);
    ByteValueInjective(a[2], b[2]);
    ByteValueInjective(a[3], b[3]);
    forall i | 0 <= i < IPv4Len ensures a[i] == b[i] {
      assert i == 0 || i == 1 || i == 2 || i == 3;
    }
  }

  /** A join holds only the parts' characters and the separator. */
  lemma {:induction false} JoinHasNo(ps: seq<string>, sep: char, c: char)
    requires |ps| > 0 && sep != c
    requires forall k, i :: 0 <= k < |ps| && 0 <= i < |ps[k]| ==> ps[k][i] != c
    ensures forall i :: 0 <= i < |Join(ps, sep)| ==> Join(ps, sep)[i] != c
  {
    if |ps| > 1 {
      JoinHasNo(ps[1..], sep, c);
    }
  }

  /** The dotted text holds digits and dots only, so no colon. */
  lemma DottedHasNoColon(a: IP)
    requires |a| == IPv4Len
    ensures forall i :: 0 <= i < |Dotted(a)| ==> Dotted(a)[i] != ':'
  {
    OctetsHaveNo(a, ':');
    JoinHasNo(Octets(a), '.', ':');
  }

  /** Different IPv4 addresses have different links on the same port. */
  lemma LinkInjective(a: IP, b: IP, port: int)
    requires |a| == IPv4Len && |b| == IPv4Len
    requires Link(a, port) == Link(b, port)
    ensures a == b
  {
    var p := FormatInt(port);
    var la := Link(a, port);
    var lb := Link(b, port);
    assert la == "http://" + (Dotted(a) + [':'] + p);
    assert lb == "http://" + (Dotted(b) + [':'] + p);
    assert Dotted(a) + [':'] + p == la[7..] == lb[7..] == Dotted(b) + [':'] + p;
    DottedHasNoColon(a);
    DottedHasNoColon(b);
    SplitAtFirst(Dotted(a), p, Dotted(b), p, ':');
    DottedInjective(a, b);
  }

  // ---------------------------------------------------------------------------
  // Candidates and the reference selection
  // ---------------------------------------------------------------------------

  /** A candidate: a network address whose IP has an IPv4 form. */
  predicate IsCandidate(x: InterfaceAddr) {
    x.IPNetAddr? && To4(x.ip).Some?
  }

  /** The candidate's text, as the prefixes are matched against it. */
  function Text(x: InterfaceAddr): string
    requires IsCandidate(x)
  {
    Dotted(To4(x.ip).value)
  }

  /** The candidate's share link. */
  function LinkOf(x: InterfaceAddr, port: int): string
    requires IsCandidate(x)
  {
    Link(To4(x.ip).value, port)
  }

  /** strings.HasPrefix(text, p) for some prefix p. */
  predicate MatchesSome(text: string, prefixes: seq<string>) {
    exists k :: 0 <= k < |prefixes| && prefixes[k] <= text
  }

  /** A candidate whose text starts with one of the prefixes. */
  predicate IsMatch(x: InterfaceAddr, prefixes: seq<string>) {
    IsCandidate(x) && MatchesSome(Text(x), prefixes)
  }

  /** A candidate isPrivateIP rejects. */
  predicate IsPublicCandidate(x: InterfaceAddr) {
    IsCandidate(x) && !IsPrivateIP(x.ip)
  }

  /** The links of the matching candidates, in enumeration order. */
  function Matched(addrs: seq<InterfaceAddr>, prefixes: seq<string>, port: int): seq<string> {
    if addrs == [] then []
    else
      var init := Matched(addrs[..|addrs| - 1], prefixes, port);
      var x := addrs[|addrs| - 1];
      if IsMatch(x, prefixes) then init + [LinkOf(x, port)] else init
  }

  /** The positions whose addresses satisfy `p`: each once, in increasing order. */
  function IndicesWhere(addrs: seq<InterfaceAddr>, p: InterfaceAddr -> bool): (idx: seq<nat>)
    ensures forall k :: 0 <= k < |idx| ==> idx[k] < |addrs| && p(addrs[idx[k]])
    ensures forall i :: 0 <= i < |addrs| && p(addrs[i]) ==> i in idx
    ensures forall k, l :: 0 <= k < l < |idx| ==> idx[k] < idx[l]
  {
    if addrs == [] then []
    else
      var n := |addrs| - 1;
      var init := IndicesWhere(addrs[..n], p);
      assert forall j :: 0 <= j < n ==> addrs[..n][j] == addrs[j];
      if p(addrs[n]) then init + [n] else init
  }

  /** The positions of the matching candidates: each once, in increasing order. */
  function MatchingIndices(addrs: seq<InterfaceAddr>, prefixes: seq<string>): (idx: seq<nat>)
    ensures forall k :: 0 <= k < |idx| ==> idx[k] < |addrs| && IsMatch(addrs[idx[k]], prefixes)
    ensures forall i :: 0 <= i < |addrs| && IsMatch(addrs[i], prefixes) ==> i in idx
    ensures forall k, l :: 0 <= k < l < |idx| ==> idx[k] < idx[l]
  {
    IndicesWhere(addrs, x => IsMatch(x, prefixes))
  }

  /** The first position whose address satisfies `p`, if any. */
  function FirstWhere(addrs: seq<InterfaceAddr>, p: InterfaceAddr -> bool): (r: Option<nat>)
    ensures r.Some? ==>
      r.value < |addrs| && p(addrs[r.value]) && forall j :: 0 <= j < r.value ==> !p(addrs[j])
    ensures r.None? ==> forall i :: 0 <= i < |addrs| ==> !p(addrs[i])
  {
    if addrs == [] then None
    else
      var n := |addrs| - 1;
      var init := FirstWhere(addrs[..n], p);
      assert forall j :: 0 <= j < n ==> addrs[..n][j] == addrs[j];
      if init.Some? then init
      else if p(addrs[n]) then Some(n)
      else None
  }

  /** The first public candidate, if any. */
  function FirstPublic(addrs: seq<InterfaceAddr>): (r: Option<nat>)
    ensures r.Some? ==>
      r.value < |addrs| && IsPublicCandidate(addrs[r.value]) &&
      forall j :: 0 <= j < r.value ==> !IsPublicCandidate(addrs[j])
    ensures r.None? ==> forall i :: 0 <= i < |addrs| ==> !IsPublicCandidate(addrs[i])
  {
    FirstWhere(addrs, IsPublicCandidate)
  }

  /** The fallback link: the first public candidate's. */
  function Fallback(addrs: seq<InterfaceAddr>, port: int): Option<string> {
    match FirstPublic(addrs)
    case Some(i) => Some(LinkOf(addrs[i], port))
    case None => None
  }

  /** What the selection presents: the matching candidates' links, else the fallback, else nothing. */
  function Selected(addrs: seq<InterfaceAddr>, prefixes: seq<string>, port: int): seq<string> {
    var m := Matched(addrs, prefixes, port);
    if m != [] then m
    else match Fallback(addrs, port)
      case Some(link) => [link]
      case None => []
  }

  /** The classification a candidate's log line shows. */
  function Mark(ip: IP): string {
    if IsPrivateIP(ip) then "private" else "public"
  }

  /** The log line of a candidate: its link, then its mark in brackets. */
  function LogLine(x: InterfaceAddr, port: int): string
    requires IsCandidate(x)
  {
    LinkOf(x, port) + " [" + Mark(x.ip) + "]"
  }

  /** The log lines of the selection, in enumeration order. */
  function LogLines(addrs: seq<InterfaceAddr>, port: int): seq<string> {
    if addrs == [] then []
    else
      var n := |addrs| - 1;
      if IsCandidate(addrs[n]) then LogLines(addrs[..n], port) + [LogLine(addrs[n], port)] else LogLines(addrs[..n], port)
  }

  // ---------------------------------------------------------------------------
  // The selection loop
  // ---------------------------------------------------------------------------

  /**
   * The loop over the prefixes for one candidate: it stops at the first
   * prefix the text starts with.
   */
  method HasSomePrefix(text: string, prefixes: seq<string>) returns (found: bool)
    ensures found <==> MatchesSome(text, prefixes)
  {
    found := false;
    for j := 0 to |prefixes|
      invariant forall k :: 0 <= k < j ==> !(prefixes[k] <= text)
    {
      if prefixes[j] <= text {
        found := true;
        break;
      }
    }
  }

  /**
   * The loop over the interface addresses: the prefixes are parsed from the
   * -q value, each candidate is presented on its first matching prefix, and
   * the first public candidate's link is presented at the end if nothing
   * matched.
   */
  method PresentLinks(addrs: seq<InterfaceAddr>, qrPrefix: string, port: int) returns (presented: seq<string>, logged: seq<string>)
    ensures presented == Selected(addrs, ParsePrefixes(qrPrefix), port)
    ensures logged == LogLines(addrs, port)
  {
    var prefixes := ParsePrefixes(qrPrefix);
    var qrGenerated := false;
    var fallbackIP: Option<IP> := None;
    var fallbackLink := "";
    presented, logged := [], [];
    for i := 0 to |addrs|
      invariant presented == Matched(addrs[..i], prefixes, port)
      invariant logged == LogLines(addrs[..i], port)
      invariant qrGenerated <==> presented != []
      invariant Fallback(addrs[..i], port) == if fallbackIP.Some? then Some(fallbackLink) else None
    {
      var addr := addrs[i];
      assert addrs[..i + 1] == addrs[..i] + [addr];
      MatchedSnoc(addrs[..i], addr, prefixes, port);
      FallbackSnoc(addrs[..i], addr, port);
      LogLinesSnoc(addrs[..i], addr, port);
      if addr.IPNetAddr? {
        var ip := addr.ip;
        if To4(ip).Some? {
          var a := To4(ip).value;
          assert IsCandidate(addr);
          var mark := "public";
          if IsPrivateIP(ip) {
            mark := "private";
          }
          var link := Link(a, port);
          assert link == LinkOf(addr, port) && mark == Mark(ip);
          logged := logged + [link + " [" + mark + "]"];
          var matched := HasSomePrefix(Dotted(a), prefixes);
          assert matched == IsMatch(addr, prefixes);
          if matched {
            presented := presented + [link];
            qrGenerated := true;
          }
          if !IsPrivateIP(ip) && fallbackIP.None? {
            fallbackIP := Some(ip);
            fallbackLink := link;
          }
        } else {
          assert !IsCandidate(addr);
        }
      } else {
        assert !IsCandidate(addr);
      }
    }
    assert addrs[..|addrs|] == addrs;
    if !qrGenerated && fallbackIP.Some? {
      presented := presented + [fallbackLink];
    }
  }

  // ---------------------------------------------------------------------------
  // What the selection presents
  // ---------------------------------------------------------------------------

  /**
   * The matched links are exactly the links of the matching candidates, in
   * enumeration order, each once: the k-th link belongs to the k-th matching
   * position.
   */
  lemma {:induction false} MatchedByIndex(addrs: seq<InterfaceAddr>, prefixes: seq<string>, port: int)
    ensures |Matched(addrs, prefixes, port)| == |MatchingIndices(addrs, prefixes)|
    ensures forall k :: 0 <= k < |MatchingIndices(addrs, prefixes)| ==>
      Matched(addrs, prefixes, port)[k] == LinkOf(addrs[MatchingIndices(addrs, prefixes)[k]], port)
  {
    if addrs != [] {
      var n := |addrs| - 1;
      var init := addrs[..n];
      MatchedByIndex(init, prefixes, port);
      var idx := MatchingIndices(init, prefixes);
      var m := Matched(init, prefixes, port);
      forall k | 0 <= k < |idx| ensures addrs[idx[k]] == init[idx[k]] {
      }
      if IsMatch(addrs[n], prefixes) {
        var idx', m' := idx + [n], m + [LinkOf(addrs[n], port)];
        assert MatchingIndices(addrs, prefixes) == idx';
        assert Matched(addrs, prefixes, port) == m';
        forall k | 0 <= k < |idx'| ensures m'[k] == LinkOf(addrs[idx'[k]], port) {
          if k < |idx| {
            assert m'[k] == m[k] && idx'[k] == idx[k];
          }
        }
      } else {
        assert MatchingIndices(addrs, prefixes) == idx;
        assert Matched(addrs, prefixes, port) == m;
      }
    }
  }

  /** Some candidate matches exactly when the matched links are not empty. */
  lemma MatchedEmptyIff(addrs: seq<InterfaceAddr>, prefixes: seq<string>, port: int)
    ensures Matched(addrs, prefixes, port) == [] <==> forall i :: 0 <= i < |addrs| ==> !IsMatch(addrs[i], prefixes)
  {
    MatchedByIndex(addrs, prefixes, port);
    var idx := MatchingIndices(addrs, prefixes);
    if idx != [] {
      assert IsMatch(addrs[idx[0]], prefixes);
    }
  }

  /**
   * Every presented link is the link of a candidate: an address of another
   * kind, or one without an IPv4 form, is never presented, neither as a
   * match nor as the fallback.
   */
  lemma PresentedAreCandidates(addrs: seq<InterfaceAddr>, prefixes: seq<string>, port: int)
    ensures forall k :: 0 <= k < |Selected(addrs, prefixes, port)| ==> IsCandidateLink(addrs, Selected(addrs, prefixes, port)[k], port)
  {
    var m := Matched(addrs, prefixes, port);
    if m != [] {
      MatchedAreCandidates(addrs, prefixes, port);
    } else {
      FallbackIsCandidate(addrs, port);
    }
  }

  lemma MatchedAreCandidates(addrs: seq<InterfaceAddr>, prefixes: seq<string>, port: int)
    ensures forall k :: 0 <= k < |Matched(addrs, prefixes, port)| ==> IsCandidateLink(addrs, Matched(addrs, prefixes, port)[k], port)
  {
    MatchedByIndex(addrs, prefixes, port);
    var idx := MatchingIndices(addrs, prefixes);
    var m := Matched(addrs, prefixes, port);
    forall k | 0 <= k < |m| ensures IsCandidateLink(addrs, m[k], port) {
      var i := idx[k];
      assert IsCandidate(addrs[i]) && m[k] == LinkOf(addrs[i], port);
    }
  }

  lemma FallbackIsCandidate(addrs: seq<InterfaceAddr>, port: int)
    ensures Fallback(addrs, port).Some? ==> IsCandidateLink(addrs, Fallback(addrs, port).value, port)
  {
    if FirstPublic(addrs).Some? {
      var i := FirstPublic(addrs).value;
      assert IsCandidate(addrs[i]) && Fallback(addrs, port).value == LinkOf(addrs[i], port);
    }
  }

  /** `link` is the link of one of the candidates among `addrs`. */
  predicate IsCandidateLink(addrs: seq<InterfaceAddr>, link: string, port: int) {
    exists i :: 0 <= i < |addrs| && IsCandidate(addrs[i]) && link == LinkOf(addrs[i], port)
  }

  /**
   * The outcome, case by case: the matching candidates' links when some
   * candidate matches; otherwise the single link of the first public
   * candidate when there is one; otherwise nothing.
   */
  lemma SelectedCases(addrs: seq<InterfaceAddr>, prefixes: seq<string>, port: int)
    ensures (exists i :: 0 <= i < |addrs| && IsMatch(addrs[i], prefixes)) ==>
      Selected(addrs, prefixes, port) == Matched(addrs, prefixes, port) != []
    ensures (forall i :: 0 <= i < |addrs| ==> !IsMatch(addrs[i], prefixes)) ==>
      (forall i :: 0 <= i < |addrs| ==> !IsPublicCandidate(addrs[i])) ==> Selected(addrs, prefixes, port) == []
    ensures (forall i :: 0 <= i < |addrs| ==> !IsMatch(addrs[i], prefixes)) ==>
      forall i :: IsFirstPublic(addrs, i) ==> Selected(addrs, prefixes, port) == [LinkOf(addrs[i], port)]
  {
    MatchedEmptyIff(addrs, prefixes, port);
    var r := FirstPublic(addrs);
    if r.Some? {
      forall i | IsFirstPublic(addrs, i) ensures i == r.value {
        assert r.value <= i;
        assert i <= r.value;
      }
    }
  }

  /** Position `i` holds the first public candidate. */
  predicate IsFirstPublic(addrs: seq<InterfaceAddr>, i: int) {
    0 <= i < |addrs| && IsPublicCandidate(addrs[i]) && forall j :: 0 <= j < i ==> !IsPublicCandidate(addrs[j])
  }

  /**
   * With distinct IPv4 addresses among the candidates, no link is presented
   * twice: a candidate that several prefixes match still yields one link.
   */
  lemma PresentedOnce(addrs: seq<InterfaceAddr>, prefixes: seq<string>, port: int)
    requires forall i, j :: 0 <= i < j < |addrs| && IsCandidate(addrs[i]) && IsCandidate(addrs[j]) ==>
      To4(addrs[i].ip).value != To4(addrs[j].ip).value
    ensures forall k, l :: 0 <= k < l < |Selected(addrs, prefixes, port)| ==>
      Selected(addrs, prefixes, port)[k] != Selected(addrs, prefixes, port)[l]
  {
    MatchedByIndex(addrs, prefixes, port);
    var idx := MatchingIndices(addrs, prefixes);
    var m := Matched(addrs, prefixes, port);
    forall k, l | 0 <= k < l < |m| ensures m[k] != m[l] {
      var i, j := idx[k], idx[l];
      assert i < j;
      if m[k] == m[l] {
        LinkInjective(To4(addrs[i].ip).value, To4(addrs[j].ip).value, port);
      }
    }
  }

  /** The candidates among the addresses, in order. */
  function Candidates(addrs: seq<InterfaceAddr>): (cs: seq<InterfaceAddr>)
    ensures forall k :: 0 <= k < |cs| ==> IsCandidate(cs[k])
  {
    if addrs == [] then []
    else
      var n := |addrs| - 1;
      if IsCandidate(addrs[n]) then Candidates(addrs[..n]) + [addrs[n]] else Candidates(addrs[..n])
  }

  /**
   * Candidates keeps every candidate and nothing else, in order: its k-th
   * element is the address at the k-th candidate position.
   */
  lemma {:induction false} CandidatesByIndex(addrs: seq<InterfaceAddr>)
    ensures |Candidates(addrs)| == |IndicesWhere(addrs, IsCandidate)|
    ensures forall k :: 0 <= k < |Candidates(addrs)| ==> Candidates(addrs)[k] == addrs[IndicesWhere(addrs, IsCandidate)[k]]
  {
    if addrs != [] {
      var n := |addrs| - 1;
      var init := addrs[..n];
      CandidatesByIndex(init);
      var idx := IndicesWhere(init, IsCandidate);
      var cs := Candidates(init);
      forall k | 0 <= k < |idx| ensures addrs[idx[k]] == init[idx[k]] {
      }
      if IsCandidate(addrs[n]) {
        assert IndicesWhere(addrs, IsCandidate) == idx + [n];
        assert Candidates(addrs) == cs + [addrs[n]];
      } else {
        assert IndicesWhere(addrs, IsCandidate) == idx;
        assert Candidates(addrs) == cs;
      }
    }
  }

  /** Adding an address at the end changes the fallback only when there was none and the address is public. */
  lemma FallbackSnoc(addrs: seq<InterfaceAddr>, x: InterfaceAddr, port: int)
    ensures Fallback(addrs + [x], port) ==
      if Fallback(addrs, port).Some? then Fallback(addrs, port)
      else if IsPublicCandidate(x) then Some(LinkOf(x, port))
      else None
  {
    var s := addrs + [x];
    assert s[..|addrs|] == addrs;
    assert s[|addrs|] == x;
    if FirstPublic(addrs).Some? {
      assert s[FirstPublic(addrs).value] == addrs[FirstPublic(addrs).value];
    }
  }

  /** LogLines of a list extended at the end. */
  lemma LogLinesSnoc(addrs: seq<InterfaceAddr>, x: InterfaceAddr, port: int)
    ensures LogLines(addrs + [x], port) ==
      if IsCandidate(x) then LogLines(addrs, port) + [LogLine(x, port)] else LogLines(addrs, port)
  {
    assert (addrs + [x])[..|addrs|] == addrs;
  }

  /**
   * One log line per candidate, in order, whether or not it is presented:
   * the k-th line is the k-th candidate's link with its mark.
   */
  lemma {:induction false} LogLinesOnePerCandidate(addrs: seq<InterfaceAddr>, port: int)
    ensures |LogLines(addrs, port)| == |Candidates(addrs)|
    ensures forall k :: 0 <= k < |Candidates(addrs)| ==> LogLines(addrs, port)[k] == LogLine(Candidates(addrs)[k], port)
  {
    if addrs != [] {
      var n := |addrs| - 1;
      var init := addrs[..n];
      LogLinesOnePerCandidate(init, port);
      if IsCandidate(addrs[n]) {
        assert LogLines(addrs, port) == LogLines(init, port) + [LogLine(addrs[n], port)];
        assert Candidates(addrs) == Candidates(init) + [addrs[n]];
      } else {
        assert LogLines(addrs, port) == LogLines(init, port);
        assert Candidates(addrs) == Candidates(init);
      }
    }
  }

  /** Matched of a list extended at the end. */
  lemma MatchedSnoc(addrs: seq<InterfaceAddr>, x: InterfaceAddr, prefixes: seq<string>, port: int)
    ensures Matched(addrs + [x], prefixes, port) ==
      if IsMatch(x, prefixes) then Matched(addrs, prefixes, port) + [LinkOf(x, port)] else Matched(addrs, prefixes, port)
  {
    assert (addrs + [x])[..|addrs|] == addrs;
  }

  /** Dropping the addresses that are not candidates changes neither the matched links nor the fallback. */
  lemma {:induction false} CandidatesSuffice(addrs: seq<InterfaceAddr>, prefixes: seq<string>, port: int)
    ensures Matched(Candidates(addrs), prefixes, port) == Matched(addrs, prefixes, port)
    ensures Fallback(Candidates(addrs), port) == Fallback(addrs, port)
  {
    if addrs != [] {
      var n := |addrs| - 1;
      var init := addrs[..n];
      var x := addrs[n];
      assert addrs == init + [x];
      CandidatesSuffice(init, prefixes, port);
      MatchedSnoc(init, x, prefixes, port);
      FallbackSnoc(init, x, port);
      if IsCandidate(x) {
        MatchedSnoc(Candidates(init), x, prefixes, port);
        FallbackSnoc(Candidates(init), x, port);
      }
    }
  }

  /** Only the IPv4 candidates decide the outcome. */
  lemma OnlyCandidatesMatter(addrs: seq<InterfaceAddr>, prefixes: seq<string>, port: int)
    ensures Selected(Candidates(addrs), prefixes, port) == Selected(addrs, prefixes, port)
  {
    CandidatesSuffice(addrs, prefixes, port);
  }

  // ---------------------------------------------------------------------------
  // Worked outcomes
  // ---------------------------------------------------------------------------

  /** The dotted text starts with the first octet in decimal and a dot. */
  lemma DottedStart(a: IP)
    requires |a| == IPv4Len
    ensures DecimalDigits(a[0] as nat) + ['.'] <= Dotted(a)
  {
    var ds := Octets(a);
    assert Dotted(a) == ds[0] + ['.'] + Join(ds[1..], '.');
  }

  /** A prefix that is the first octet's digits matches. */
  lemma FirstOctetMatches(a: IP, p: string)
    requires |a| == IPv4Len && p == DecimalDigits(a[0] as nat)
    ensures p <= Dotted(a)
  {
    DottedStart(a);
  }

  /**
   * A private candidate matching the prefix is presented; the public
   * candidate after it is not, since a match suppresses the fallback.
   */
  lemma MatchBeatsFallback(addrs: seq<InterfaceAddr>, q: string, port: int)
    requires addrs == [IPNetAddr([10, 0, 0, 5]), IPNetAddr([8, 8, 8, 8])] && q == "10"
    ensures Selected(addrs, ParsePrefixes(q), port) == [Link([10, 0, 0, 5], port)]
  {
    var a, b: IP := [10, 0, 0, 5], [8, 8, 8, 8];
    To4IPv4RoundTrip(a);
    To4IPv4RoundTrip(b);
    SinglePrefix(q);
    var ps := ParsePrefixes(q);
    FirstOctetMatches(a, "10");
    DottedStart(b);
    assert !IsMatch(addrs[1], ps) by {
      assert DecimalDigits(8) == "8";
      assert Dotted(b)[0] == '8';
    }
    assert addrs == [] + [addrs[0]] + [addrs[1]];
    MatchedSnoc([], addrs[0], ps, port);
    MatchedSnoc([addrs[0]], addrs[1], ps, port);
  }

  /** Nothing matches, so the public candidate's link is presented. */
  lemma FallbackWhenNoMatch(addrs: seq<InterfaceAddr>, q: string, port: int)
    requires addrs == [IPNetAddr([8, 8, 8, 8])] && q == "192"
    ensures Selected(addrs, ParsePrefixes(q), port) == [Link([8, 8, 8, 8], port)]
  {
    var b: IP := [8, 8, 8, 8];
    To4IPv4RoundTrip(b);
    DefaultPrefix(q);
    var ps := ParsePrefixes(q);
    DottedStart(b);
    assert !IsMatch(addrs[0], ps) by {
      assert DecimalDigits(8) == "8";
      assert Dotted(b)[0] == '8';
    }
    PublicExample();
    assert addrs == [] + [addrs[0]];
    MatchedSnoc([], addrs[0], ps, port);
    FallbackSnoc([], addrs[0], port);
  }

  /** Nothing matches and every candidate is private: nothing is presented. */
  lemma NothingToPresent(addrs: seq<InterfaceAddr>, q: string, port: int)
    requires addrs == [IPNetAddr([10, 0, 0, 5])] && q == "192"
    ensures Selected(addrs, ParsePrefixes(q), port) == []
  {
    var a: IP := [10, 0, 0, 5];
    To4IPv4RoundTrip(a);
    DefaultPrefix(q);
    var ps := ParsePrefixes(q);
    DottedStart(a);
    assert !IsMatch(addrs[0], ps) by {
      assert DecimalDigits(10) == "10";
      assert Dotted(a)[1] == '0';
    }
    PrivateExamples();
    assert addrs == [] + [addrs[0]];
    MatchedSnoc([], addrs[0], ps, port);
    FallbackSnoc([], addrs[0], port);
  }

  /** Two candidates on the same prefix: both links are presented, one QR code each. */
  lemma EveryMatchPresented(addrs: seq<InterfaceAddr>, q: string, port: int)
    requires addrs == [IPNetAddr([192, 168, 1, 2]), IPNetAddr([192, 168, 1, 3])] && q == "192"
    ensures Selected(addrs, ParsePrefixes(q), port) == [Link([192, 168, 1, 2], port), Link([192, 168, 1, 3], port)]
  {
    var a, b: IP := [192, 168, 1, 2], [192, 168, 1, 3];
    To4IPv4RoundTrip(a);
    To4IPv4RoundTrip(b);
    DefaultPrefix(q);
    var ps := ParsePrefixes(q);
    assert DecimalDigits(192) == "192" by {
      assert DecimalDigits(19) == "19";
    }
    FirstOctetMatches(a, "192");
    FirstOctetMatches(b, "192");
    assert addrs == [] + [addrs[0]] + [addrs[1]];
    MatchedSnoc([], addrs[0], ps, port);
    MatchedSnoc([addrs[0]], addrs[1], ps, port);
  }
}
