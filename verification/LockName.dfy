/** What a lock link says: the owner printed into a file name, and read back. */
module LockName {
  import opened Wrappers

  const SEC_NSECS: nat := 1_000_000_000
  const ULONG_MAX: nat := 0xFFFF_FFFF_FFFF_FFFF

  /** A lock holder: the time, in nanoseconds, is that of the last boot of the host. */
  datatype Owner = Owner(user: string, host: string, pid: int, ns: nat)

  // ----- numbers -------------------------------------------------------------------------------------

  predicate IsDigit(c: char) {
    '0' <= c <= '9'
  }

  predicate AllDigits(s: string) {
    forall i :: 0 <= i < |s| ==> IsDigit(s[i])
  }

  function Value(s: string): nat
    requires AllDigits(s)
  {
    if s == [] then 0 else 10 * Value(s[..|s| - 1]) + (s[|s| - 1] as int - '0' as int)
  }

  function Decimal(n: nat): (s: string)
    ensures AllDigits(s) && s != []
  {
    (if n < 10 then [] else Decimal(n / 10)) + [('0' as int + n % 10) as char]
  }

  lemma {:induction false} ValueOfDecimal(n: nat)
    ensures Value(Decimal(n)) == n
  {
    var digit := ('0' as int + n % 10) as char;
    if n < 10 {
      assert Decimal(n) == [digit] && [digit][..0] == [];
    } else {
      ValueOfDecimal(n / 10);
      assert Decimal(n)[..|Decimal(n)| - 1] == Decimal(n / 10);
    }
  }

  /** `strtoul` on digits: too large a value becomes the largest there is. */
  function StrToUl(s: string): nat
    requires AllDigits(s)
  {
    if Value(s) <= ULONG_MAX then Value(s) else ULONG_MAX
  }

  /** The conversion of an unsigned long to a 32-bit `pid_t`. */
  function ToPid(n: nat): int {
    (n + 0x8000_0000) % 0x1_0000_0000 - 0x8000_0000
  }

  // ----- printing ------------------------------------------------------------------------------------

  /** Only called with a process's own identity, whose pid is positive. */
  function Format(o: Owner): string
    requires o.pid >= 0
  {
    o.user + "@" + o.host + "." + Decimal(o.pid) + ":" + Decimal(o.ns / SEC_NSECS)
  }

  // ----- reading -------------------------------------------------------------------------------------

  function Find(s: string, c: char, i: nat): (j: nat)
    requires i <= |s|
    ensures i <= j <= |s| && (j < |s| ==> s[j] == c)
    decreases |s| - i
  {
    if i < |s| && s[i] != c then Find(s, c, i + 1) else i
  }

  /** The last place at or before `i` that is no digit; there is one at `stop`. */
  function Back(s: string, i: nat, stop: nat): (j: nat)
    requires stop <= i < |s| && !IsDigit(s[stop])
    ensures stop <= j <= i && !IsDigit(s[j])
    decreases i
  {
    if IsDigit(s[i]) then Back(s, i - 1, stop) else i
  }

  function Parse(s: string): Option<Owner> {
    var a := Find(s, '@', 0);
    if a == |s| then None
    else
      var c := Find(s, ':', a + 1);
      if c == |s| then None
      else
        var d := Back(s, c - 1, a);
        if s[d] != '.' || !AllDigits(s[c + 1..]) then None
        else if a == 0 || d == a + 1 || c == d + 1 || c + 1 == |s| then None
        else
          DigitsBetween(s, c - 1, a);
          Some(Owner(s[..a], s[a + 1..d], ToPid(StrToUl(s[d + 1..c])), StrToUl(s[c + 1..]) * SEC_NSECS))
  }

  lemma {:induction false} FindSkips(s: string, c: char, i: nat)
    requires i <= |s|
    ensures forall k :: i <= k < Find(s, c, i) ==> s[k] != c
    decreases |s| - i
  {
    if i < |s| && s[i] != c {
      FindSkips(s, c, i + 1);
    }
  }

  lemma FindIs(s: string, c: char, i: nat, j: nat)
    requires i <= j < |s| && s[j] == c
    requires forall k :: i <= k < j ==> s[k] != c
    ensures Find(s, c, i) == j
    decreases j - i
  {
    if i < j {
      FindIs(s, c, i + 1, j);
    }
  }

  lemma {:induction false} BackSkips(s: string, i: nat, stop: nat)
    requires stop <= i < |s| && !IsDigit(s[stop])
    ensures forall k :: Back(s, i, stop) < k <= i ==> IsDigit(s[k])
    decreases i
  {
    if IsDigit(s[i]) {
      BackSkips(s, i - 1, stop);
    }
  }

  lemma BackIs(s: string, i: nat, stop: nat, j: nat)
    requires stop <= j <= i < |s| && !IsDigit(s[stop]) && !IsDigit(s[j])
    requires forall k :: j < k <= i ==> IsDigit(s[k])
    ensures Back(s, i, stop) == j
    decreases i
  {
    if j < i {
      BackIs(s, i - 1, stop, j);
    }
  }

  lemma DigitsBetween(s: string, i: nat, stop: nat)
    requires stop <= i < |s| && !IsDigit(s[stop])
    ensures AllDigits(s[Back(s, i, stop) + 1..i + 1])
  {
    BackSkips(s, i, stop);
  }

  // ----- what is a lock ------------------------------------------------------------------------------

  /** `user@host.pid:time`, all parts there. */
  predicate Splits(s: string, user: string, host: string, pid: string, time: string) {
    && s == user + "@" + host + "." + pid + ":" + time
    && user != "" && host != "" && pid != "" && time != ""
    && '@' !in user && ':' !in host && AllDigits(pid) && AllDigits(time)
  }

  /** A name of that form is read as just these parts. */
  lemma ParseOfParts(s: string, user: string, host: string, pid: string, time: string)
    requires Splits(s, user, host, pid, time)
    ensures Parse(s) == Some(Owner(user, host, ToPid(StrToUl(pid)), StrToUl(time) * SEC_NSECS))
  {
    hide StrToUl, ToPid, Find, Back, IsDigit, Splits;
    var a := |user|;
    var d := a + 1 + |host|;
    var c := d + 1 + |pid|;
    Places(s, user, host, pid, time, a, d, c);
    FindIs(s, '@', 0, a);
    FindIs(s, ':', a + 1, c);
    BackIs(s, c - 1, a, d);
  }

  /** Where the parts and their separators are. */
  lemma Places(s: string, user: string, host: string, pid: string, time: string, a: nat, d: nat, c: nat)
    requires Splits(s, user, host, pid, time)
    requires a == |user| && d == a + 1 + |host| && c == d + 1 + |pid|
    ensures 0 < a && a + 1 < d && d + 1 < c && c + 1 < |s| && s[a] == '@' && s[d] == '.' && s[c] == ':'
    ensures !IsDigit(s[a]) && !IsDigit(s[d])
    ensures s[..a] == user && s[a + 1..d] == host && s[d + 1..c] == pid && s[c + 1..] == time
    ensures AllDigits(s[d + 1..c]) && AllDigits(s[c + 1..])
    ensures forall k :: 0 <= k < a ==> s[k] != '@'
    ensures forall k :: a + 1 <= k < c ==> s[k] != ':'
    ensures forall k :: d < k <= c - 1 ==> IsDigit(s[k])
  {
    assert s[..a] == user && s[a + 1..d] == host && s[d + 1..c] == pid && s[c + 1..] == time;
    forall k | d < k <= c - 1
      ensures IsDigit(s[k])
    {
      assert s[k] == pid[k - d - 1];
    }
    forall k | a + 1 <= k < d
      ensures s[k] != ':'
    {
      assert s[k] == host[k - a - 1];
    }
  }

  /** A name is read as a lock exactly if it has that form. */
  lemma ParsesExactly(s: string)
    ensures Parse(s).Some? <==> exists user, host, pid, time :: Splits(s, user, host, pid, time)
  {
    hide StrToUl, ToPid;
    if Parse(s).Some? {
      var a := Find(s, '@', 0);
      var c := Find(s, ':', a + 1);
      var d := Back(s, c - 1, a);
      FindSkips(s, '@', 0);
      FindSkips(s, ':', a + 1);
      DigitsBetween(s, c - 1, a);
      var user, host, pid, time := s[..a], s[a + 1..d], s[d + 1..c], s[c + 1..];
      assert s == user + "@" + host + "." + pid + ":" + time;
      assert Splits(s, user, host, pid, time);
    }
    if user, host, pid, time :| Splits(s, user, host, pid, time) {
      ParseOfParts(s, user, host, pid, time);
    }
  }

  /** What a process may print: names as the parser wants them, and numbers that fit. */
  predicate Printable(o: Owner) {
    && o.user != "" && '@' !in o.user && o.host != "" && ':' !in o.host
    && 0 <= o.pid < 0x8000_0000 && o.ns / SEC_NSECS <= ULONG_MAX
  }

  function WholeSeconds(o: Owner): Owner {
    o.(ns := o.ns / SEC_NSECS * SEC_NSECS)
  }

  /** Reading undoes printing, down to whole seconds. */
  lemma ParseOfFormat(o: Owner)
    requires Printable(o)
    ensures Parse(Format(o)) == Some(WholeSeconds(o))
  {
    hide Parse, Decimal, StrToUl, ToPid;
    var seconds := o.ns / SEC_NSECS;
    var pid, time := Decimal(o.pid), Decimal(seconds);
    NumberBack(o.pid);
    NumberBack(seconds);
    SmallPid(o.pid);
    assert Format(o) == o.user + "@" + o.host + "." + pid + ":" + time;
    assert Splits(Format(o), o.user, o.host, pid, time);
    ParseOfParts(Format(o), o.user, o.host, pid, time);
  }

  /** Reading undoes printing, down to whole seconds, exactly for what a process may print. */
  lemma RoundTripExactly(o: Owner)
    requires o.pid >= 0
    ensures Parse(Format(o)) == Some(WholeSeconds(o)) <==> Printable(o)
  {
    hide Parse, Format, Decimal;
    if Printable(o) {
      ParseOfFormat(o);
    }
    if Parse(Format(o)) == Some(WholeSeconds(o)) {
      ParsesExactly(Format(o));
      var user, host, pid, time :| Splits(Format(o), user, host, pid, time);
      ParseOfParts(Format(o), user, host, pid, time);
      NumbersFit(o.ns, pid, time);
    }
  }

  /** What is read fits the types it is stored in. */
  lemma NumbersFit(ns: nat, pid: string, time: string)
    requires AllDigits(pid) && AllDigits(time)
    ensures ToPid(StrToUl(pid)) < 0x8000_0000
    ensures ns / SEC_NSECS * SEC_NSECS == StrToUl(time) * SEC_NSECS ==> ns / SEC_NSECS <= ULONG_MAX
  {
  }

  lemma NumberBack(n: nat)
    requires n <= ULONG_MAX
    ensures StrToUl(Decimal(n)) == n
  {
    ValueOfDecimal(n);
  }

  lemma SmallPid(n: nat)
    requires n < 0x8000_0000
    ensures ToPid(n) == n
  {
  }

  /** Scans to a separator. */
  method ScanTo(s: string, c: char, start: nat) returns (p: nat)
    requires start <= |s|
    ensures p == Find(s, c, start)
  {
    p := start;
    while p < |s| && s[p] != c
      invariant p <= |s| && Find(s, c, p) == Find(s, c, start)
    {
      p := p + 1;
    }
  }

  /** Scans the time. */
  method ScanDigits(s: string, start: nat) returns (digits: bool)
    requires start <= |s|
    ensures digits == AllDigits(s[start..])
  {
    var p := start;
    while p < |s|
      invariant start <= p <= |s| && forall k :: start <= k < p ==> IsDigit(s[k])
    {
      if !IsDigit(s[p]) {
        assert s[start..][p - start] == s[p];
        return false;
      }
      p := p + 1;
    }
    digits := true;
  }

  /** The scanner. */
  method ParseLink(s: string) returns (r: Option<Owner>)
    ensures r == Parse(s)
  {
    hide StrToUl, ToPid, Find, AllDigits;
    var p := ScanTo(s, '@', 0);
    if p == |s| {
      return None;
    }
    var nameEnd, hostStart := p, p + 1;
    p := ScanTo(s, ':', hostStart);
    if p == |s| {
      return None;
    }
    var pidEnd := p;
    p := p - 1;
    while IsDigit(s[p])
      invariant nameEnd <= p < pidEnd && Back(s, p, nameEnd) == Back(s, pidEnd - 1, nameEnd)
      decreases p
    {
      p := p - 1;
    }
    if s[p] != '.' {
      return None;
    }
    var hostEnd, pidStart := p, p + 1;
    DigitsBetween(s, pidEnd - 1, nameEnd);
    var timeStart := pidEnd + 1;
    var digits := ScanDigits(s, timeStart);
    if !digits {
      return None;
    }
    p := |s|;
    if nameEnd == 0 || hostEnd == hostStart || pidEnd == pidStart || p == timeStart {
      return None;
    }
    r := Some(Owner(s[..nameEnd], s[hostStart..hostEnd], ToPid(StrToUl(s[pidStart..pidEnd])),
                    StrToUl(s[timeStart..]) * SEC_NSECS));
  }
}
