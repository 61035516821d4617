/**
 * The string helpers of Go's standard library that the core relies on:
 * strconv.Itoa, net.JoinHostPort and strings.Split with a one-character
 * separator.
 */
module Text {

  /** Decimal rendering of an integer, as strconv.Itoa. */
  function Itoa(n: int): string
  {
    if n < 0 then "-" + NatString(-n) else NatString(n)
  }

  function NatString(n: nat): string
  {
    if n < 10 then [Digit(n)] else NatString(n / 10) + [Digit(n % 10)]
  }

  function Digit(d: nat): char
    requires d < 10
  {
    "0123456789"[d]
  }

  /** "host:port", with the host in brackets when it holds a colon, as net.JoinHostPort. */
  function JoinHostPort(host: string, port: string): string
  {
    if ':' in host then "[" + host + "]:" + port else host + ":" + port
  }

  /** Position of the first occurrence of c in s. */
  function IndexOf(s: string, c: char): (i: nat)
    requires c in s
    ensures i < |s| && s[i] == c
    ensures forall k :: 0 <= k < i ==> s[k] != c
  {
    if s[0] == c then 0 else 1 + IndexOf(s[1..], c)
  }

  /** The pieces of s between occurrences of sep, as strings.Split(s, string(sep)). */
  function Split(s: string, sep: char): (parts: seq<string>)
    ensures |parts| >= 1
    decreases |s|
  {
    if sep !in s then [s]
    else
      var i := IndexOf(s, sep);
      [s[..i]] + Split(s[i + 1..], sep)
  }

  /** There is one piece exactly when the separator is absent, and no piece holds the separator. */
  lemma {:induction false} SplitPieces(s: string, sep: char)
    ensures |Split(s, sep)| == 1 <==> sep !in s
    ensures forall k :: 0 <= k < |Split(s, sep)| ==> sep !in Split(s, sep)[k]
    decreases |s|
  {
    if sep in s {
      var i := IndexOf(s, sep);
      var rest := s[i + 1..];
      SplitPieces(rest, sep);
      assert Split(s, sep) == [s[..i]] + Split(rest, sep);
      assert sep !in s[..i];
    }
  }

  /** A split with the separator present: the piece before its first occurrence, then the split of the rest. */
  lemma SplitFirst(s: string, sep: char)
    requires sep in s
    ensures Split(s, sep) == [s[..IndexOf(s, sep)]] + Split(s[IndexOf(s, sep) + 1..], sep)
  {
  }

  /** The first piece of a split is a prefix of the string, ending at its end or at a separator. */
  lemma SplitHead(s: string, sep: char)
    ensures var p := Split(s, sep)[0]; |p| <= |s| && s[..|p|] == p && (|p| == |s| || s[|p|] == sep)
  {
    if sep in s {
      var i := IndexOf(s, sep);
      assert Split(s, sep)[0] == s[..i];
    } else {
      assert s[..|s|] == s;
    }
  }

  /** The inverse of Split: the pieces glued back together with sep, as strings.Join. */
  function Join(parts: seq<string>, sep: char): string
  {
    if parts == [] then ""
    else if |parts| == 1 then parts[0]
    else parts[0] + [sep] + Join(parts[1..], sep)
  }

  lemma JoinCons(head: string, tail: seq<string>, sep: char)
    requires |tail| >= 1
    ensures Join([head] + tail, sep) == head + [sep] + Join(tail, sep)
  {
    assert ([head] + tail)[1..] == tail;
  }

  /** Splitting loses nothing: joining the pieces gives back the string. */
  lemma {:induction false} SplitJoin(s: string, sep: char)
    ensures Join(Split(s, sep), sep) == s
    decreases |s|
  {
    if sep in s {
      var i := IndexOf(s, sep);
      var rest := s[i + 1..];
      var tail := Split(rest, sep);
      calc {
        Join(Split(s, sep), sep);
        { SplitFirst(s, sep); }
        Join([s[..i]] + tail, sep);
        { JoinCons(s[..i], tail, sep); }
        s[..i] + [sep] + Join(tail, sep);
        { SplitJoin(rest, sep); }
        s[..i] + [sep] + rest;
        { assert s == s[..i] + [s[i]] + s[i + 1..]; }
        s;
      }
    } else {
      assert Split(s, sep) == [s];
    }
  }
}
