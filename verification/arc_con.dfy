/**
 * The ARC firmware console (arch/mips/fw/arc/arc_con.c): writing puts each
 * character to the firmware, turning every line feed into a carriage return
 * followed by the line feed.
 */
module ArcConsole {

  const CR: char := '\r'
  const LF: char := '\n'

  /** How many line feeds `s` holds. */
  function LineFeeds(s: seq<char>): (n: nat)
    ensures n <= |s|
  {
    if s == [] then 0 else (if s[0] == LF then 1 else 0) + LineFeeds(s[1..])
  }

  /** The characters emitted for `s`: each line feed preceded by a carriage return. */
  function Expand(s: seq<char>): (r: seq<char>)
    ensures |r| == |s| + LineFeeds(s)
    ensures forall i :: 0 <= i < |r| && r[i] == LF ==> i > 0 && r[i - 1] == CR
  {
    if s == [] then []
    else (if s[0] == LF then [CR, LF] else [s[0]]) + Expand(s[1..])
  }

  /** Removing the inserted carriage returns: a CR directly before an LF is dropped. */
  function Unexpand(t: seq<char>): (r: seq<char>)
    decreases |t|
  {
    if t == [] then []
    else if |t| >= 2 && t[0] == CR && t[1] == LF then [LF] + Unexpand(t[2..])
    else [t[0]] + Unexpand(t[1..])
  }

  /** The expansion loses nothing: dropping each CR that precedes an LF gives back the input. */
  lemma {:induction false} UnexpandExpand(s: seq<char>)
    ensures Unexpand(Expand(s)) == s
  {
    if s != [] {
      UnexpandExpand(s[1..]);
      var rest := Expand(s[1..]);
      if s[0] == LF {
        assert Expand(s) == [CR, LF] + rest;
        assert (Expand(s))[2..] == rest;
      } else {
        // An expansion never starts with LF, so an input CR is never taken for an inserted one.
        assert rest == [] || rest[0] != LF;
        assert Expand(s) == [s[0]] + rest;
        assert (Expand(s))[1..] == rest;
      }
    }
  }

  /** Expansion distributes over concatenation. */
  lemma {:induction false} ExpandAppend(a: seq<char>, b: seq<char>)
    ensures Expand(a + b) == Expand(a) + Expand(b)
  {
    if a == [] {
      assert a + b == b;
    } else {
      assert (a + b)[0] == a[0];
      assert (a + b)[1..] == a[1..] + b;
      ExpandAppend(a[1..], b);
    }
  }

  /**
   * prom_console_write: the first `count` characters of `s`, in order, each
   * line feed preceded by a carriage return; nothing for count 0.
   */
  method ConsoleWrite(s: seq<char>, count: nat) returns (out: seq<char>)
    requires count <= |s|
    ensures out == Expand(s[..count])
    ensures |out| == count + LineFeeds(s[..count])
    ensures count == 0 ==> out == []
  {
    out := [];
    var i := 0;
    var left := count;
    while left > 0
      invariant 0 <= i <= count && left == count - i
      invariant out == Expand(s[..i])
      decreases left
    {
      left := left - 1;
      var c := s[i];
      if c == LF {
        out := out + [CR];
      }
      out := out + [c];
      ExpandAppend(s[..i], [c]);
      assert Expand([c]) == (if c == LF then [CR, LF] else [c]) by {
        assert [c][1..] == [];
      }
      assert s[..i + 1] == s[..i] + [c];
      i := i + 1;
    }
  }

  /**
   * prom_console_setup: 0 (accept) exactly when the firmware flags include
   * `useAsConsole`, the PROM_FLAG_USE_AS_CONSOLE bit, and 1 otherwise.
   */
  function ConsoleSetup(promFlags: bv32, useAsConsole: bv32): (r: int)
    ensures r == 0 <==> promFlags & useAsConsole != 0
    ensures r == 0 || r == 1
  {
    if promFlags & useAsConsole == 0 then 1 else 0
  }
}
