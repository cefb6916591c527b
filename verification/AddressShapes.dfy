/** What counts as an address typed without a scheme, and what each change does to one, said of its parts. */
module AddressShapes {
  import opened AddressFix

  // ----- the parts of an address

  predicate IsHostChar(c: char) {
    'a' <= c <= 'z' || 'A' <= c <= 'Z' || '0' <= c <= '9' || c == '.' || c == '-'
  }

  /** Labels of letters, digits and hyphens, two or more, none of them empty, with a dot between them. */
  ghost predicate IsHost(s: string) {
    (forall i :: 0 <= i < |s| ==> IsHostChar(s[i])) && IsDottedName(s)
  }

  /** Nothing, or a colon and one to five digits. */
  ghost predicate IsPort(s: string) {
    s == "" || (2 <= |s| <= 6 && s[0] == ':' && forall i :: 1 <= i < |s| ==> '0' <= s[i] <= '9')
  }

  /** Nothing, or what starts with `/`, `?` or `#` and has no whitespace. */
  ghost predicate IsTail(s: string) {
    s == "" || (s[0] in "/?#" && forall i :: 0 <= i < |s| ==> !IsSpace(s[i]))
  }

  ghost predicate IsMadeOf(s: string, host: string, port: string, tail: string) {
    s == host + port + tail && IsHost(host) && IsPort(port) && IsTail(tail)
  }

  ghost predicate IsAddress(s: string) {
    exists host, port, tail :: IsMadeOf(s, host, port, tail)
  }

  lemma {:induction false} RunTakes(s: string, rest: string, allowed: char -> bool)
    requires forall i :: 0 <= i < |s| ==> allowed(s[i])
    requires rest != "" ==> !allowed(rest[0])
    ensures RunLength(s + rest, allowed) == |s|
    decreases |s|
  {
    if s == "" {
      assert s + rest == rest;
    } else {
      assert (s + rest)[1..] == s[1..] + rest;
      RunTakes(s[1..], rest, allowed);
    }
  }

  lemma TailHasNoSpace(tail: string)
    ensures IsTail(tail) <==> tail == "" || ((tail[0] == '/' || tail[0] == '?' || tail[0] == '#') && !HasSpace(tail))
  {
  }

  lemma PartsFollowHost(port: string, tail: string)
    requires IsPort(port) && IsTail(tail)
    ensures MayFollowHost(port + tail)
    ensures port + tail != "" ==> !IsHostChar((port + tail)[0])
  {
    var rest := port + tail;
    TailHasNoSpace(tail);
    if port == "" {
      assert rest == tail;
    } else {
      assert rest[1..] == port[1..] + tail;
      RunTakes(port[1..], tail, DIGITS);
      assert rest[|port|..] == tail;
    }
  }

  lemma PartsMakeBare(s: string, host: string, port: string, tail: string)
    requires IsMadeOf(s, host, port, tail)
    ensures IsBareAddress(s)
  {
    var rest := port + tail;
    assert s == host + rest;
    PartsFollowHost(port, tail);
    RunTakes(host, rest, HOST_CHARS);
    assert s[..|host|] == host && s[|host|..] == rest;
  }

  lemma PortHasDigits(rest: string)
    requires PortLength(rest) > 0
    ensures var port := rest[..1 + PortLength(rest)];
            port[0] == ':' && forall i :: 1 <= i < |port| ==> '0' <= port[i] <= '9'
  {
    var n := PortLength(rest);
    forall i | 1 <= i < 1 + n
      ensures '0' <= rest[i] <= '9'
    {
      assert rest[1..][i - 1] == rest[i] && DIGITS(rest[1..][i - 1]);
    }
  }

  lemma FollowerHasParts(rest: string) returns (port: string, tail: string)
    requires MayFollowHost(rest)
    ensures rest == port + tail && IsPort(port) && IsTail(tail)
  {
    var n := PortLength(rest);
    if n > 0 {
      port, tail := rest[..1 + n], rest[1 + n..];
      PortHasDigits(rest);
    } else {
      port, tail := "", rest;
    }
    TailHasNoSpace(tail);
  }

  lemma BareHasParts(s: string)
    requires IsBareAddress(s)
    ensures IsAddress(s)
  {
    var n := RunLength(s, HOST_CHARS);
    var port, tail := FollowerHasParts(s[n..]);
    HostOfRun(s, n);
    InThree(s, n, port, tail);
    assert IsMadeOf(s, s[..n], port, tail);
  }

  lemma HostOfRun(s: string, n: nat)
    requires n == RunLength(s, HOST_CHARS) && IsDottedName(s[..n])
    ensures IsHost(s[..n])
  {
    assert forall i :: 0 <= i < n ==> HOST_CHARS(s[i]);
  }

  lemma InThree(s: string, n: nat, port: string, tail: string)
    requires n <= |s| && s[n..] == port + tail
    ensures s == s[..n] + port + tail
  {
  }

  /** A bare address is a dotted host, an optional port and an optional rest. */
  lemma BareAddressExactly(s: string)
    ensures IsBareAddress(s) <==> IsAddress(s)
  {
    if IsBareAddress(s) {
      BareHasParts(s);
    }
    if IsAddress(s) {
      var host, port, tail :| IsMadeOf(s, host, port, tail);
      PartsMakeBare(s, host, port, tail);
    }
  }

  /** It names no scheme: no `://` follows its first characters. */
  lemma AddressHasNoScheme(s: string)
    requires IsAddress(s)
    ensures !HasScheme(s)
  {
    var host, port, tail :| IsMadeOf(s, host, port, tail);
    var rest := port + tail;
    assert s == host + rest;
    assert rest != "" ==> rest[0] == if port != "" then port[0] else tail[0];
    RunTakes(host, rest, SCHEME_CHARS);
    NoMarkAt(host, port, tail);
  }

  lemma NoMarkAt(host: string, port: string, tail: string)
    requires IsPort(port) && IsTail(tail)
    ensures var s, k := host + (port + tail), |host|; k + 3 <= |s| ==> s[k..k + 3] != "://"
  {
    var s, k := host + (port + tail), |host|;
    if k + 3 <= |s| {
      var mark := s[k..k + 3];
      assert mark[0] == (port + tail)[0] && mark[1] == (port + tail)[1];
      if port != "" {
        assert mark[1] == port[1];
      } else {
        assert mark[0] == tail[0];
      }
    }
  }

  // ----- the scheme that is missing

  lemma {:induction false} TrimExactly(s: string) returns (i: nat, j: nat)
    ensures i <= j <= |s| && Trim(s) == s[i..j]
    ensures forall k :: (0 <= k < i || j <= k < |s|) ==> IsSpace(s[k])
    ensures i < j ==> !IsSpace(s[i]) && !IsSpace(s[j - 1])
    decreases |s|
  {
    if s != [] && IsSpace(s[0]) {
      i, j := TrimExactly(s[1..]);
      assert s[1..][i..j] == s[i + 1..j + 1];
      assert forall k :: 0 < k < |s| ==> s[k] == s[1..][k - 1];
      i, j := i + 1, j + 1;
    } else if s != [] && IsSpace(s[|s| - 1]) {
      i, j := TrimExactly(s[..|s| - 1]);
      assert s[..|s| - 1][i..j] == s[i..j];
      assert forall k :: 0 <= k < |s| - 1 ==> s[k] == s[..|s| - 1][k];
    } else {
      i, j := 0, |s|;
    }
  }

  /**
   `https://` is put in front of an address the pattern refuses as typed and accepts with it; else
   nothing changes.
   */
  lemma MissingSchemeExactly(pattern: Pattern, value: string)
    ensures var text := Trim(value);
            WithMissingScheme(pattern, value) ==
            if pattern.Pattern? && IsAddress(text) && !pattern.accepts(text) && pattern.accepts("https://" + text)
            then "https://" + text else value
  {
    BareAddressExactly(Trim(value));
    if IsAddress(Trim(value)) {
      AddressHasNoScheme(Trim(value));
    }
  }

  // ----- what each change does

  /** The text is a scheme and `://`, nothing more. */
  ghost predicate IsScheme(s: string) {
    SchemeLength(s) == |s| > 0
  }

  lemma SchemeInFront(s: string, rest: string)
    requires IsScheme(s)
    ensures SchemeLength(s + rest) == |s|
  {
    SchemeEnds(s);
    var k := |s| - 3;
    var t := s + rest;
    assert forall i :: 0 <= i < k ==> t[i] == s[i];
    assert t[k..k + 3] == s[k..k + 3];
    RunStops(t, SCHEME_CHARS, k);
  }

  /** A `www.`, in any case, goes from the front of the host, behind the scheme where there is one. */
  lemma DropWwwExactly(scheme: string, www: string, host: string)
    requires |www| == 4 && StartsWith(www, "www.")
    ensures IsScheme(scheme) ==> DropWww(scheme + www + host) == scheme + host
    ensures !HasScheme(www + host) ==> DropWww(www + host) == host
  {
    StartsWithPart(www, host, "www.");
    if IsScheme(scheme) {
      WwwBehindScheme(scheme, www, host);
    }
    if !HasScheme(www + host) {
      assert (www + host)[0..] == www + host && (www + host)[4..] == host;
      assert (www + host)[..0] + host == host;
    }
  }

  lemma WwwBehindScheme(scheme: string, www: string, host: string)
    requires IsScheme(scheme) && |www| == 4 && StartsWith(www + host, "www.")
    ensures DropWww(scheme + www + host) == scheme + host
  {
    var v := scheme + (www + host);
    SchemeInFront(scheme, www + host);
    assert scheme + www + host == v;
    ThreeParts(scheme, www, host);
  }

  lemma ThreeParts(a: string, b: string, c: string)
    ensures var v := a + (b + c); v[|a|..] == b + c && v[..|a|] == a && v[|a| + |b|..] == c
  {
  }

  lemma StartsWithPart(s: string, rest: string, prefix: string)
    requires StartsWith(s, prefix)
    ensures StartsWith(s + rest, prefix)
  {
  }

  /** Elsewhere nothing is dropped. */
  lemma NoWwwStays(v: string)
    requires !StartsWith(v, "www.") && !StartsWith(v[SchemeLength(v)..], "www.")
    ensures DropWww(v) == v
  {
  }

  /** What each change does on its own. */
  lemma ChangesAlone(text: string)
    ensures ApplyChanges(text, {Scheme}) == "https://" + text
    ensures StartsWith(text, "http://") ==> ApplyChanges(text, {Https}) == "https://" + text[7..]
    ensures !StartsWith(text, "http://") ==> ApplyChanges(text, {Https}) == text
    ensures ApplyChanges(text, {Path}) == HostAndRest(text).0
    ensures ApplyChanges(text, {Slash}) == WithoutSlashes(text)
    ensures ApplyChanges(text, {Www}) == DropWww(text)
    ensures ApplyChanges(text, {}) == text
  {
  }

  /** The text after one of the changes, if it is among those made. */
  function After(text: string, changes: set<Change>, c: Change): string {
    if c in changes then ApplyChanges(text, {c}) else text
  }

  /** Several are made one after the other: the scheme, what follows the host, slashes, `www.`. */
  lemma ChangesFollow(text: string, changes: set<Change>)
    ensures var v := After(After(text, changes, Scheme), changes, Https);
            ApplyChanges(text, changes) ==
            After(After(After(v, changes, Path), changes, Slash), changes, Www)
  {
    ChangesAlone(text);
    var a := After(text, changes, Scheme);
    ChangesAlone(a);
    var b := After(a, changes, Https);
    ChangesAlone(b);
    assert WithScheme(text, changes) == b;
    ChangesAlone(After(b, changes, Path));
    ChangesAlone(After(After(b, changes, Path), changes, Slash));
  }

  // ----- which texts are looked at, and what may be changed in them

  predicate IsSchemeChar(c: char) {
    'a' <= c <= 'z' || 'A' <= c <= 'Z' || '0' <= c <= '9' || c == '+' || c == '.' || c == '-'
  }

  /** A letter, then letters, digits, `+`, `.` or `-`, then `://`. */
  ghost predicate NamesScheme(s: string, n: nat) {
    && 0 < n && n + 3 <= |s| && IsLetter(s[0])
    && (forall i :: 0 <= i < n ==> IsSchemeChar(s[i])) && s[n..n + 3] == "://"
  }

  lemma SchemeExactly(s: string)
    ensures HasScheme(s) <==> exists n: nat :: NamesScheme(s, n)
  {
    if HasScheme(s) {
      var k := RunLength(s, SCHEME_CHARS);
      assert forall i :: 0 <= i < k ==> SCHEME_CHARS(s[i]);
      assert NamesScheme(s, k);
    }
    if n: nat :| NamesScheme(s, n) {
      assert s[n..n + 3][0] == s[n];
      RunStops(s, SCHEME_CHARS, n);
    }
  }

  /** A fix is looked for where the text has no whitespace, is refused, and has a scheme or is an address. */
  lemma ConsideredExactly(accepts: string -> bool, text: string)
    ensures IsConsidered(accepts, text) <==>
            && text != "" && (forall i :: 0 <= i < |text| ==> !IsSpace(text[i])) && !accepts(text)
            && (IsAddress(text) || exists n: nat :: NamesScheme(text, n))
  {
    BareAddressExactly(text);
    SchemeExactly(text);
  }

  lemma HttpsMakesDifference(text: string)
    ensures StartsWith(text, "http://") <==> ApplyChanges(text, {Https}) != text
  {
    ChangesAlone(text);
    if StartsWith(text, "http://") {
      FifthDiffers(text);
    }
  }

  lemma FifthDiffers(text: string)
    requires StartsWith(text, "http://")
    ensures "https://" + text[7..] != text
  {
    var mark := "http://";
    assert mark[4] == ':' && Lower(text[4]) == mark[4];
    assert ("https://" + text[7..])[4] == 's';
  }

  lemma SlashMakesDifference(text: string)
    ensures text != [] && text[|text| - 1] == '/' <==> ApplyChanges(text, {Slash}) != text
  {
    ChangesAlone(text);
    TrimmedIsExact(text);
  }

  lemma MoreThanSlashes(text: string)
    ensures IsPossible(text, Path) <==> exists i :: |HostAndRest(text).0| <= i < |text| && text[i] != '/'
  {
    var (head, rest) := HostAndRest(text);
    SplitIsExact(text);
    if i :| 0 <= i < |rest| && rest[i] != '/' {
      assert text[|head| + i] == rest[i];
    }
    if i :| |head| <= i < |text| && text[i] != '/' {
      assert rest[i - |head|] == text[i];
    }
  }

  /** A change is tried where it makes a difference; cutting, where more than slashes follows the host. */
  lemma PossibleExactly(text: string, c: Change)
    ensures IsPossible(text, c) <==>
            match c
            case Scheme => !exists n: nat :: NamesScheme(text, n)
            case Path => exists i :: |HostAndRest(text).0| <= i < |text| && text[i] != '/'
            case _ => ApplyChanges(text, {c}) != text
  {
    match c
    case Scheme => SchemeExactly(text);
    case Https => HttpsMakesDifference(text);
    case Slash => SlashMakesDifference(text);
    case Www => ChangesAlone(text);
    case Path => MoreThanSlashes(text);
  }
}
