/** The voice-command test applied to a final speech transcript: trim it,
    lower-case it, and compare it with the one command word. */
module Transcript {

  /** The characters a JavaScript `trim` removes from both ends: the
      ECMAScript WhiteSpace set (tab, vertical tab, form feed, space,
      no-break space, the byte-order mark and the Unicode space separators)
      and the LineTerminator set (line feed, carriage return, line and
      paragraph separators). */
  predicate IsTrimmable(c: char)
  {
    var n := c as int;
    n == 0x09 || n == 0x0A || n == 0x0B || n == 0x0C || n == 0x0D || n == 0x20 ||
    n == 0xA0 || n == 0x1680 || (0x2000 <= n <= 0x200A) ||
    n == 0x2028 || n == 0x2029 || n == 0x202F || n == 0x205F || n == 0x3000 || n == 0xFEFF
  }

  predicate AllTrimmable(s: string)
  {
    forall i :: 0 <= i < |s| ==> IsTrimmable(s[i])
  }

  /** `s` without its leading trimmable characters. */
  function TrimStart(s: string): string
    decreases |s|
  {
    if s != [] && IsTrimmable(s[0]) then TrimStart(s[1..]) else s
  }

  /** `s` without its trailing trimmable characters. */
  function TrimEnd(s: string): string
    decreases |s|
  {
    if s != [] && IsTrimmable(s[|s| - 1]) then TrimEnd(s[..|s| - 1]) else s
  }

  /** `s` without trimmable characters at either end. */
  function Trim(s: string): string
  {
    TrimEnd(TrimStart(s))
  }

  /** TrimStart cuts off a prefix made only of trimmable characters, and what
      is left does not start with one. */
  lemma {:induction false} TrimStartShape(s: string)
    ensures var r := TrimStart(s);
      |r| <= |s| && r == s[|s| - |r|..] &&
      AllTrimmable(s[..|s| - |r|]) &&
      (r != [] ==> !IsTrimmable(r[0]))
    decreases |s|
  {
    if s != [] && IsTrimmable(s[0]) {
      TrimStartShape(s[1..]);
      var r := TrimStart(s);
      assert s[..|s| - |r|] == [s[0]] + s[1..][..|s| - 1 - |r|];
    }
  }

  /** TrimEnd cuts off a suffix made only of trimmable characters, and what
      is left does not end with one. */
  lemma {:induction false} TrimEndShape(s: string)
    ensures var r := TrimEnd(s);
      |r| <= |s| && r == s[..|r|] &&
      AllTrimmable(s[|r|..]) &&
      (r != [] ==> !IsTrimmable(r[|r| - 1]))
    decreases |s|
  {
    if s != [] && IsTrimmable(s[|s| - 1]) {
      var u := s[..|s| - 1];
      TrimEndShape(u);
      var r := TrimEnd(s);
      assert s[|r|..] == u[|r|..] + [s[|s| - 1]];
    }
  }

  /** Trim keeps a contiguous piece of its input that neither starts nor ends
      with a trimmable character, and everything it cuts off on either side
      is trimmable. */
  lemma TrimShape(s: string)
    ensures |Trim(s)| <= |TrimStart(s)| <= |s|
    ensures var r, k := Trim(s), |s| - |TrimStart(s)|;
      k + |r| <= |s| && r == s[k..k + |r|] &&
      AllTrimmable(s[..k]) && AllTrimmable(s[k + |r|..]) &&
      (r != [] ==> !IsTrimmable(r[0]) && !IsTrimmable(r[|r| - 1]))
  {
    var t := TrimStart(s);
    TrimStartShape(s);
    TrimEndShape(t);
    var r := TrimEnd(t);
    var k := |s| - |t|;
    assert t == s[k..];
    assert s[k..k + |r|] == t[..|r|];
    assert s[k + |r|..] == t[|r|..];
  }

  predicate IsAsciiUpper(c: char) { 'A' <= c <= 'Z' }
  predicate IsAsciiLower(c: char) { 'a' <= c <= 'z' }

  function LowerChar(c: char): char
  {
    if IsAsciiUpper(c) then (c as int + 32) as char else c
  }

  function UpperChar(c: char): char
  {
    if IsAsciiLower(c) then (c as int - 32) as char else c
  }

  /** `toLowerCase` on ASCII letters; every other character is kept. */
  function ToLower(s: string): string
    decreases |s|
  {
    if s == [] then [] else [LowerChar(s[0])] + ToLower(s[1..])
  }

  /** Lower-casing keeps the length, maps each character on its own and
      leaves no ASCII capital. */
  lemma {:induction false} ToLowerShape(s: string)
    ensures var r := ToLower(s);
      |r| == |s| && forall i :: 0 <= i < |r| ==> !IsAsciiUpper(r[i]) && r[i] == LowerChar(s[i])
    decreases |s|
  {
    if s != [] {
      ToLowerShape(s[1..]);
    }
  }

  /** The only voice command recognised. */
  const Command: string := "clear"

  /** A normalised transcript is exactly the command word. */
  predicate IsClearCommand(transcript: string)
  {
    ToLower(Trim(transcript)) == Command
  }

  /** `w` spells the lower-case word `k` with each letter in either case. */
  predicate IsCaseVariant(w: string, k: string)
  {
    |w| == |k| && forall i :: 0 <= i < |k| ==> w[i] == k[i] || w[i] == UpperChar(k[i])
  }

  lemma {:induction false} TrimStartPadded(a: string, u: string)
    requires AllTrimmable(a) && (u != [] ==> !IsTrimmable(u[0]))
    ensures TrimStart(a + u) == u
    decreases |a|
  {
    if a == [] {
      assert a + u == u;
    } else {
      assert (a + u)[0] == a[0];
      assert (a + u)[1..] == a[1..] + u;
      TrimStartPadded(a[1..], u);
    }
  }

  lemma {:induction false} TrimEndPadded(u: string, b: string)
    requires AllTrimmable(b) && (u != [] ==> !IsTrimmable(u[|u| - 1]))
    ensures TrimEnd(u + b) == u
    decreases |b|
  {
    if b == [] {
      assert u + b == u;
    } else {
      assert (u + b)[|u + b| - 1] == b[|b| - 1];
      assert (u + b)[..|u + b| - 1] == u + b[..|b| - 1];
      TrimEndPadded(u, b[..|b| - 1]);
    }
  }

  /** Trimming removes exactly the padding around a word that neither starts
      nor ends with a trimmable character. */
  lemma TrimPadded(a: string, w: string, b: string)
    requires AllTrimmable(a) && AllTrimmable(b)
    requires w != [] ==> !IsTrimmable(w[0]) && !IsTrimmable(w[|w| - 1])
    ensures Trim(a + w + b) == w
  {
    assert a + w + b == a + (w + b);
    if w == [] {
      assert AllTrimmable(a + b);
      TrimStartPadded(a + b, []);
      assert a + b + [] == a + w + b;
    } else {
      TrimStartPadded(a, w + b);
      TrimEndPadded(w, b);
    }
  }

  lemma TrimIdempotent(s: string)
    ensures Trim(Trim(s)) == Trim(s)
  {
    TrimShape(s);
    TrimPadded([], Trim(s), []);
    assert [] + Trim(s) + [] == Trim(s);
  }

  /** Lower-casing gives the lower-case word `k` exactly when its input spells
      `k` with letters in either case. */
  lemma LowerIffCaseVariant(w: string, k: string)
    requires forall i :: 0 <= i < |k| ==> IsAsciiLower(k[i])
    ensures ToLower(w) == k <==> IsCaseVariant(w, k)
  {
    ToLowerShape(w);
  }

  /** A transcript fires the command when it is the word "clear", in any mix
      of letter cases, with only trimmable characters around it. */
  lemma ClearCommandPadded(a: string, w: string, b: string)
    requires AllTrimmable(a) && AllTrimmable(b) && IsCaseVariant(w, Command)
    ensures IsClearCommand(a + w + b)
  {
    TrimPadded(a, w, b);
    LowerIffCaseVariant(w, Command);
  }

  /** Conversely, a transcript that fires the command is the word "clear", in
      some mix of letter cases, with only trimmable characters around it. */
  lemma ClearCommandShape(t: string)
    requires IsClearCommand(t)
    ensures |TrimStart(t)| <= |t|
    ensures var k := |t| - |TrimStart(t)|;
      k + |Command| <= |t| &&
      IsCaseVariant(t[k..k + |Command|], Command) &&
      AllTrimmable(t[..k]) && AllTrimmable(t[k + |Command|..])
  {
    TrimShape(t);
    LowerIffCaseVariant(Trim(t), Command);
  }

  /** The voice command ignores letter case. */
  lemma CaseIgnored()
    ensures IsClearCommand("Clear")
  {
    assert IsCaseVariant("Clear", Command) by {
      assert "Clear"[0] == UpperChar(Command[0]);
    }
    ClearCommandPadded("", "Clear", "");
    assert "" + "Clear" + "" == "Clear";
  }

  /** The voice command ignores surrounding white space. */
  lemma SpaceIgnored()
    ensures IsClearCommand(" CLEAR\n")
  {
    assert IsCaseVariant("CLEAR", Command) by {
      assert forall i :: 0 <= i < 5 ==> "CLEAR"[i] == UpperChar(Command[i]);
    }
    assert AllTrimmable(" ") && AllTrimmable("\n");
    ClearCommandPadded(" ", "CLEAR", "\n");
    assert " " + "CLEAR" + "\n" == " CLEAR\n";
  }

  /** A transcript whose trimmed form has a length other than five never fires,
      whatever word it contains. */
  lemma OtherLengthNeverFires(t: string)
    requires |Trim(t)| != |Command|
    ensures !IsClearCommand(t)
  {
    ToLowerShape(Trim(t));
  }

  /** The voice command is an exact match: a sentence that merely contains it does not fire. */
  lemma ContainingCommandDoesNotFire()
    ensures !IsClearCommand("please clear now")
    ensures !IsClearCommand("clear it")
  {
    TrimPadded("", "please clear now", "");
    assert "" + "please clear now" + "" == "please clear now";
    TrimPadded("", "clear it", "");
    assert "" + "clear it" + "" == "clear it";
  }
}
