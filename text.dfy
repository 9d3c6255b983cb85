/**
 * The string helpers of tool64.c: `ext` (the file extension after the last
 * dot), `downcase` (lower-casing a NUL-terminated string in place) and the
 * command selection of `main`.
 *
 * A C string passed by value is modelled as the characters before its NUL
 * terminator; the string `downcase` changes in place is a char array that
 * holds a NUL somewhere.
 */
module Text {
  import opened Layout

  datatype Option<T> = None | Some(value: T)

  /** The index of the last '.' in s, the search `strrchr` performs. */
  function LastDot(s: string): (d: Option<nat>)
    ensures d.None? <==> '.' !in s
    ensures d.Some? ==> d.value < |s| && s[d.value] == '.' && '.' !in s[d.value + 1..]
  {
    if |s| == 0 then None
    else if s[|s| - 1] == '.' then Some(|s| - 1)
    else
      var d := LastDot(s[..|s| - 1]);
      assert s == s[..|s| - 1] + [s[|s| - 1]];
      d
  }

  /**
   * `ext`: the part of a file name after its last dot. It is empty when the
   * name has no dot, when the last dot is the first character (a hidden
   * file such as ".rom"), or when the name ends with the dot.
   */
  function Ext(filename: string): (e: string)
    requires '\0' !in filename
    ensures '.' !in e
    ensures e != "" ==> |e| + 2 <= |filename| && filename[|filename| - |e| - 1] == '.'
                        && e == filename[|filename| - |e|..]
    ensures e == "" <==> |filename| == 0 || '.' !in filename[1..] || filename[|filename| - 1] == '.'
  {
    match LastDot(filename)
    case None =>
      ""
    case Some(d) =>
      if d == 0 then
        assert filename[1..] == filename[d + 1..];
        ""
      else
        assert filename[1..][d - 1] == '.';
        assert filename[d + 1..] == filename[|filename| - |filename[d + 1..]|..];
        assert filename[|filename| - 1] == '.' ==> d == |filename| - 1 by {
          if d < |filename| - 1 {
            assert filename[d + 1..][|filename| - 1 - (d + 1)] == filename[|filename| - 1];
          }
        }
        filename[d + 1..]
  }

  /** `tolower` in the C locale: only 'A'..'Z' change, to 'a'..'z'. */
  function ToLower(c: char): (l: char)
    ensures !('A' <= l <= 'Z')
    ensures l == c || ('A' <= c <= 'Z' && l as int - c as int == 'a' as int - 'A' as int)
  {
    if 'A' <= c <= 'Z' then (c as int - 'A' as int + 'a' as int) as char else c
  }

  /** The length of a NUL-terminated string: the index of its first NUL. */
  function CLength(s: seq<char>): (n: nat)
    requires '\0' in s
    ensures n < |s| && s[n] == '\0' && '\0' !in s[..n]
  {
    if s[0] == '\0' then 0
    else
      var n := CLength(s[1..]);
      assert s[..n + 1] == [s[0]] + s[1..][..n];
      n + 1
  }

  /**
   * The contents of a char array after `downcase`: every character before
   * the first NUL lower-cased, the NUL and everything after it unchanged.
   */
  function Downcased(s: seq<char>): (r: seq<char>)
    requires '\0' in s
    ensures |r| == |s|
  {
    seq(|s|, k requires 0 <= k < |s| => if k < CLength(s) then ToLower(s[k]) else s[k])
  }

  /** Lower-casing keeps the terminator where it was, so the string's length. */
  lemma DowncasedKeepsLength(s: seq<char>)
    requires '\0' in s
    ensures '\0' in Downcased(s) && CLength(Downcased(s)) == CLength(s)
  {
    var r, n := Downcased(s), CLength(s);
    assert r[n] == '\0';
  }

  /** Lower-casing twice is lower-casing once. */
  lemma DowncaseIdempotent(s: seq<char>)
    requires '\0' in s
    ensures '\0' in Downcased(s) && Downcased(Downcased(s)) == Downcased(s)
  {
    DowncasedKeepsLength(s);
  }

  /**
   * `downcase`: lower-cases the string in place, stopping at its NUL; the
   * string must be terminated, or the loop would run off the array.
   */
  method Downcase(str: array<char>)
    requires '\0' in str[..]
    modifies str
    ensures str[..] == Downcased(old(str[..]))
  {
    ghost var n := CLength(str[..]);
    var i := 0;
    while str[i] != '\0'
      invariant 0 <= i <= n
      invariant forall k :: 0 <= k < i ==> str[k] == ToLower(old(str[k]))
      invariant forall k :: i <= k < str.Length ==> str[k] == old(str[k])
      decreases n - i
    {
      assert i != n;
      assert old(str[..])[..n][i] == old(str[i]);
      str[i] := ToLower(str[i]);
      i := i + 1;
    }
  }

  /** A string lower-cased character by character. */
  function Lowered(s: string): string {
    seq(|s|, k requires 0 <= k < |s| => ToLower(s[k]))
  }

  /** `downcase` on a terminated C string lower-cases exactly its characters. */
  lemma DowncaseCString(s: string)
    requires '\0' !in s
    ensures '\0' in s + ['\0'] && Downcased(s + ['\0']) == Lowered(s) + ['\0']
  {
    var c := s + ['\0'];
    assert c[|s|] == '\0';
    assert c[..|s|] == s;
  }

  /** The commands `main` recognises. */
  datatype Command = Help | Info | ConvertTo(dst: nat) | Unrecognised

  /**
   * The command selection of `main` on the (already lower-cased) first
   * argument: "help" and "info" match as prefixes (`strncmp` over 4
   * characters), "z64", "n64" and "v64" only exactly (`strcmp`).
   */
  function Dispatch(cmd: string): (c: Command)
    ensures c == Help <==> "help" <= cmd
    ensures c == Info <==> "info" <= cmd
    ensures c == ConvertTo(Z64) <==> cmd == "z64"
    ensures c == ConvertTo(N64) <==> cmd == "n64"
    ensures c == ConvertTo(V64) <==> cmd == "v64"
    ensures c.ConvertTo? ==> IsKnown(c.dst)
  {
    if "help" <= cmd then
      assert !("info" <= cmd) by { assert cmd[0] == 'h'; }
      Help
    else if "info" <= cmd then Info
    else if cmd == "z64" then ConvertTo(Z64)
    else if cmd == "n64" then ConvertTo(N64)
    else if cmd == "v64" then ConvertTo(V64)
    else Unrecognised
  }

  /**
   * The selection `main` makes from its first argument: the argument is
   * lower-cased in place first, so "Z64", "HELPME" and "Info" are all
   * recognised.
   */
  function SelectCommand(arg: string): (c: Command)
    requires '\0' !in arg
    ensures c == Help <==> |arg| >= 4 && Lowered(arg[..4]) == "help"
    ensures c == Info <==> |arg| >= 4 && Lowered(arg[..4]) == "info"
    ensures c == ConvertTo(Z64) <==> |arg| == 3 && (arg[0] == 'z' || arg[0] == 'Z') && arg[1..] == "64"
    ensures c == ConvertTo(N64) <==> |arg| == 3 && (arg[0] == 'n' || arg[0] == 'N') && arg[1..] == "64"
    ensures c == ConvertTo(V64) <==> |arg| == 3 && (arg[0] == 'v' || arg[0] == 'V') && arg[1..] == "64"
  {
    var cmd := Lowered(arg);
    assert |arg| >= 4 ==> cmd[..4] == Lowered(arg[..4]);
    assert |arg| == 3 ==> (cmd[1..] == "64" <==> arg[1..] == "64");
    Dispatch(cmd)
  }
}
