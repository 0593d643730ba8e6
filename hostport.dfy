/** Splitting the `<host:port>` command-line argument (`parseHostPort`). */
module HostPort {
  import opened Wrappers
  import opened CLib

  datatype Endpoint = Endpoint(host: seq<char>, port: int)

  /** The split `parseHostPort` makes: the host is the text before the LAST
      colon and the port is `atoi` of the text after it; with no colon the
      argument is rejected. */
  function SplitHostPort(arg: seq<char>): (r: Option<Endpoint>)
    ensures r.None? <==> ':' !in arg
    ensures r.Some? ==>
      var k := |r.value.host|;
      k < |arg| && arg[..k] == r.value.host && arg[k] == ':' &&
      ':' !in arg[k + 1..] && r.value.port == Atoi(arg[k + 1..])
  {
    match LastIndexOf(arg, ':')
    case None => None
    case Some(k) => Some(Endpoint(arg[..k], Atoi(arg[k + 1..])))
  }

  /** `strdup`: a fresh array holding the text and its terminating NUL. */
  method Strdup(s: seq<char>) returns (a: array<char>)
    ensures fresh(a) && a[..] == s + [NUL]
  {
    a := new char[|s| + 1];
    var i := 0;
    while i < |s|
      invariant 0 <= i <= |s|
      invariant a[..i] == s[..i]
    {
      a[i] := s[i];
      i := i + 1;
    }
    a[|s|] := NUL;
  }

  /** `strrchr(a, c)` for a character other than NUL: scans the C string in
      `a` and keeps the last `c` seen. */
  method Strrchr(a: array<char>, c: char) returns (r: Option<nat>)
    requires c != NUL
    ensures r == LastIndexOf(CString(a[..]), c)
  {
    r := None;
    var i := 0;
    while i < a.Length && a[i] != NUL
      invariant 0 <= i <= a.Length
      invariant forall j :: 0 <= j < i ==> a[j] != NUL
      invariant r.None? ==> forall j :: 0 <= j < i ==> a[j] != c
      invariant r.Some? ==> r.value < i && a[r.value] == c
      invariant r.Some? ==> forall j :: r.value < j < i ==> a[j] != c
    {
      if a[i] == c {
        r := Some(i);
      }
      i := i + 1;
    }
    CStringUpTo(a[..], i);
    var s := a[..i];
    var last := LastIndexOf(s, c);
    if r.None? {
      assert c !in s;
    } else {
      assert s[r.value] == c;
      assert last.Some? && last.value == r.value;
    }
  }

  /** `parseHostPort` as the C code runs it: copy the argument, find its last
      colon, overwrite that colon with NUL, and read the host and the port
      text back out of the copy. */
  method ParseHostPort(arg: seq<char>) returns (r: Option<Endpoint>)
    requires NUL !in arg
    ensures r == SplitHostPort(arg)
  {
    var copy := Strdup(arg);
    CStringOfCopy(arg);
    var colon := Strrchr(copy, ':');
    if colon.None? {
      return None;
    }
    var k := colon.value;
    copy[k] := NUL;
    CutAtColon(arg, k);
    var host := ReadCString(copy, 0);
    var portText := ReadCString(copy, k + 1);
    r := Some(Endpoint(host, Atoi(portText)));
  }

  /** The copy `strdup` makes holds the argument as its C string. */
  lemma CStringOfCopy(arg: seq<char>)
    requires NUL !in arg
    ensures CString(arg + [NUL]) == arg
  {
    CStringUpTo(arg + [NUL], |arg|);
    assert (arg + [NUL])[..|arg|] == arg;
  }

  /** Once the colon at `k` is overwritten with NUL, the copy holds the host
      from index 0 and the port text from index `k + 1`. */
  lemma CutAtColon(arg: seq<char>, k: nat)
    requires NUL !in arg && k < |arg|
    ensures var cut := (arg + [NUL])[k := NUL];
      CString(cut[0..]) == arg[..k] && CString(cut[k + 1..]) == arg[k + 1..]
  {
    var cut := (arg + [NUL])[k := NUL];
    assert cut[0..] == cut;
    assert cut[..k] == arg[..k];
    CStringUpTo(cut, k);
    var tail := cut[k + 1..];
    assert tail == arg[k + 1..] + [NUL];
    CStringUpTo(tail, |arg| - (k + 1));
    assert tail[..|arg| - (k + 1)] == arg[k + 1..];
  }

  /** A host that itself holds colons survives the split: only the last colon,
      the one before the port digits, separates host from port. */
  lemma SplitKeepsEarlierColons(host: seq<char>, port: nat)
    ensures SplitHostPort(host + [':'] + Digits(port)) == Some(Endpoint(host, port))
  {
    var arg := host + [':'] + Digits(port);
    var d := Digits(port);
    assert ':' !in d by {
      forall j | 0 <= j < |d| ensures d[j] != ':' {
        assert IsDigit(d[j]);
      }
    }
    assert arg[|host|] == ':';
    assert arg[|host| + 1..] == d;
    var r := LastIndexOf(arg, ':');
    assert r.Some?;
    assert r.value == |host|;
    assert arg[..|host|] == host;
    AtoiOfDecimal(port, []);
    assert Decimal(port) + [] == d;
  }

  /** An IPv6-style host keeps its inner colons. */
  lemma SplitIPv6Example()
    ensures SplitHostPort("::1:8080") == Some(Endpoint("::1", 8080))
  {
    assert Digits(8080) == "8080" by {
      assert Digits(8) == "8";
      assert Digits(80) == Digits(8) + ['0'];
      assert Digits(808) == Digits(80) + ['8'];
      assert Digits(8080) == Digits(808) + ['0'];
    }
    var arg := "::1" + [':'] + Digits(8080);
    assert arg == "::1:8080";
    SplitKeepsEarlierColons("::1", 8080);
  }

  /** An argument without a colon is refused. */
  lemma SplitNoColonExample()
    ensures SplitHostPort("localhost") == None
  {
    assert ':' !in "localhost";
  }
}
