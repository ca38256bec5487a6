/** The text functions the agent uses on names, paths and modes. Letter case is ASCII. */
module Text {

  predicate IsSpace(c: char) {
    var n := c as int;
    || 9 <= n <= 13 || n == 32 || n == 0x85 || n == 0xA0 || n == 0x1680 || 0x2000 <= n <= 0x200A
    || n == 0x2028 || n == 0x2029 || n == 0x202F || n == 0x205F || n == 0x3000
  }

  function TrimLeft(s: string): string {
    if s != "" && IsSpace(s[0]) then TrimLeft(s[1..]) else s
  }

  function TrimRight(s: string): string {
    if s != "" && IsSpace(s[|s| - 1]) then TrimRight(s[..|s| - 1]) else s
  }

  function TrimSpace(s: string): string { TrimRight(TrimLeft(s)) }

  /** Nothing but white space. */
  predicate Blank(s: string) {
    forall i | 0 <= i < |s| :: IsSpace(s[i])
  }

  lemma {:induction false} TrimLeftBlank(s: string)
    ensures TrimLeft(s) == "" <==> Blank(s)
    ensures TrimLeft(s) != "" ==> !IsSpace(TrimLeft(s)[0])
  {
    if s != "" && IsSpace(s[0]) {
      TrimLeftBlank(s[1..]);
      assert Blank(s) <==> Blank(s[1..]) by {
        assert forall i | 0 <= i < |s| - 1 :: s[1..][i] == s[i + 1];
      }
    }
  }

  lemma {:induction false} TrimRightBlank(s: string)
    ensures TrimRight(s) == "" <==> Blank(s)
  {
    if s != "" && IsSpace(s[|s| - 1]) {
      TrimRightBlank(s[..|s| - 1]);
    }
  }

  /** What the code tests as trimmed and empty is text that is blank. */
  lemma TrimSpaceBlank(s: string)
    ensures TrimSpace(s) == "" <==> Blank(s)
  {
    TrimLeftBlank(s);
    TrimRightBlank(TrimLeft(s));
  }

  /** The characters that count as white space, one by one. */
  lemma SpacesAre(c: char)
    ensures IsSpace(c) <==>
              c as int in {9, 10, 11, 12, 13, 32, 0x85, 0xA0, 0x1680, 0x2000, 0x2001, 0x2002, 0x2003, 0x2004, 0x2005,
                           0x2006, 0x2007, 0x2008, 0x2009, 0x200A, 0x2028, 0x2029, 0x202F, 0x205F, 0x3000}
  {
  }

  lemma {:induction false} TrimmedLeft(s: string) returns (i: nat)
    ensures i <= |s| && TrimLeft(s) == s[i..] && Blank(s[..i]) && (i < |s| ==> !IsSpace(s[i]))
  {
    i := 0;
    if s != "" && IsSpace(s[0]) {
      var k := TrimmedLeft(s[1..]);
      i := k + 1;
      assert forall n | 0 < n < i :: s[n] == s[1..][..k][n - 1];
    }
  }

  lemma {:induction false} TrimmedRight(s: string) returns (j: nat)
    ensures j <= |s| && TrimRight(s) == s[..j] && Blank(s[j..]) && (j > 0 ==> !IsSpace(s[j - 1]))
  {
    j := |s|;
    if s != "" && IsSpace(s[|s| - 1]) {
      j := TrimmedRight(s[..|s| - 1]);
      assert forall n | j <= n < |s| - 1 :: s[n] == s[..|s| - 1][j..][n - j];
    }
  }

  /** Trimming takes white space off both ends and nothing else. */
  lemma TrimSpaceExactly(s: string) returns (i: nat, j: nat)
    ensures i <= j <= |s| && TrimSpace(s) == s[i..j] && Blank(s[..i]) && Blank(s[j..])
    ensures i < j ==> !IsSpace(s[i]) && !IsSpace(s[j - 1])
  {
    i := TrimmedLeft(s);
    var t := s[i..];
    var k := TrimmedRight(t);
    j := i + k;
    assert t[..k] == s[i..j] && t[k..] == s[j..];
    assert k > 0 ==> t[k - 1] == s[j - 1];
  }

  function LowerChar(c: char): char { if 'A' <= c <= 'Z' then (c as int + 32) as char else c }

  function UpperChar(c: char): char { if 'a' <= c <= 'z' then (c as int - 32) as char else c }

  function Lower(s: string): (r: string)
    ensures |r| == |s| && forall i | 0 <= i < |s| :: r[i] == LowerChar(s[i])
  {
    seq(|s|, i requires 0 <= i < |s| => LowerChar(s[i]))
  }

  function Upper(s: string): (r: string)
    ensures |r| == |s| && forall i | 0 <= i < |s| :: r[i] == UpperChar(s[i])
  {
    seq(|s|, i requires 0 <= i < |s| => UpperChar(s[i]))
  }

  function TrimSuffix(s: string, suffix: string): string {
    if |suffix| <= |s| && s[|s| - |suffix|..] == suffix then s[..|s| - |suffix|] else s
  }

  function TrimPrefix(s: string, prefix: string): string {
    if prefix <= s then s[|prefix|..] else s
  }

  const CAPITALS := "ABCDEFGHIJKLMNOPQRSTUVWXYZ"
  const SMALLS := "abcdefghijklmnopqrstuvwxyz"

  /** Letter by letter; everything else is left as it is. */
  lemma LettersAre(c: char)
    ensures |CAPITALS| == |SMALLS| == 26
    ensures LowerChar(c) == c || exists k :: 0 <= k < 26 && CAPITALS[k] == c && SMALLS[k] == LowerChar(c)
    ensures UpperChar(c) == c || exists k :: 0 <= k < 26 && SMALLS[k] == c && CAPITALS[k] == UpperChar(c)
    ensures forall k | 0 <= k < 26 :: LowerChar(CAPITALS[k]) == SMALLS[k] && UpperChar(SMALLS[k]) == CAPITALS[k]
  {
    assert forall k | 0 <= k < 26 :: CAPITALS[k] as int == 65 + k && SMALLS[k] as int == 97 + k;
    var n := c as int;
    assert 65 <= n <= 90 ==> CAPITALS[n - 65] == c && SMALLS[n - 65] == LowerChar(c);
    assert 97 <= n <= 122 ==> SMALLS[n - 97] == c && CAPITALS[n - 97] == UpperChar(c);
  }

  /** A suffix that is there is taken off, once; a prefix likewise. */
  lemma TrimAffixExactly(s: string, affix: string)
    ensures TrimSuffix(s + affix, affix) == s && TrimPrefix(affix + s, affix) == s
    ensures TrimSuffix(s, affix) != s ==> s == TrimSuffix(s, affix) + affix
    ensures TrimPrefix(s, affix) != s ==> s == affix + TrimPrefix(s, affix)
  {
    assert (s + affix)[|s|..] == affix && (s + affix)[..|s|] == s && (affix + s)[|affix|..] == s;
  }

  /** A host name as it is compared: trimmed, one trailing dot dropped, lower case. */
  function CleanName(s: string): string { Lower(TrimSuffix(TrimSpace(s), ".")) }

  lemma DotDropped(t: string)
    ensures TrimSuffix(t, ".") == if t != "" && t[|t| - 1] == '.' then t[..|t| - 1] else t
  {
    if t != "" {
      var last := t[|t| - 1..];
      assert last == [t[|t| - 1]] && last[0] == t[|t| - 1];
      assert "."[0] == '.';
    }
  }

  /** What is compared: the text without the white space around it and one dot at its end, in lower case. */
  lemma CleanNameExactly(s: string) returns (i: nat, j: nat)
    ensures i <= j <= |s| && Blank(s[..i]) && Blank(s[j..]) && (i < j ==> !IsSpace(s[i]) && !IsSpace(s[j - 1]))
    ensures CleanName(s) == if i < j && s[j - 1] == '.' then Lower(s[i..j - 1]) else Lower(s[i..j])
  {
    hide TrimSpace, TrimSuffix, Lower;
    i, j := TrimSpaceExactly(s);
    var t := s[i..j];
    DotDropped(t);
    if i < j {
      assert t[|t| - 1] == s[j - 1] && t[..|t| - 1] == s[i..j - 1];
    }
  }

  lemma {:induction false} TrimRightPrefix(s: string)
    ensures TrimRight(s) <= s
  {
    if s != "" && IsSpace(s[|s| - 1]) {
      TrimRightPrefix(s[..|s| - 1]);
    }
  }

  /** A clean name that is not empty is not blank. */
  lemma CleanNameHasInk(s: string)
    ensures CleanName(s) != "" ==> !Blank(CleanName(s))
  {
    var t, n := TrimLeft(s), CleanName(s);
    TrimLeftBlank(s);
    TrimRightPrefix(t);
    if n != "" {
      assert n[0] == LowerChar(t[0]) && !IsSpace(n[0]);
    }
  }

  // ---------- Placeholders ----------

  predicate Contains(s: string, part: string) {
    part <= s || (s != "" && Contains(s[1..], part))
  }

  /** It stands somewhere in the text. */
  lemma {:induction false} ContainsExactly(s: string, part: string)
    ensures Contains(s, part) <==> exists i :: 0 <= i <= |s| && part <= s[i..]
    decreases |s|
  {
    assert s[0..] == s;
    if s != "" {
      ContainsExactly(s[1..], part);
      if i :| 0 <= i <= |s| - 1 && part <= s[1..][i..] {
        assert s[i + 1..] == s[1..][i..];
      }
      if i :| 0 < i <= |s| && part <= s[i..] {
        assert s[1..][i - 1..] == s[i..];
      }
    }
  }

  /** Every occurrence replaced, from the left. */
  function ReplaceAll(s: string, what: string, text: string): string
    decreases |s|
  {
    if s == "" || what == "" then s
    else if what <= s then text + ReplaceAll(s[|what|..], what, text)
    else [s[0]] + ReplaceAll(s[1..], what, text)
  }

  lemma {:induction false} ReplaceNothing(s: string, what: string, text: string)
    requires !Contains(s, what)
    ensures ReplaceAll(s, what, text) == s
    decreases |s|
  {
    if s != "" && what != "" {
      ReplaceNothing(s[1..], what, text);
    }
  }

  lemma ReplaceHere(s: string, what: string, tail: string, text: string)
    requires what != "" && s == what + tail
    ensures ReplaceAll(s, what, text) == text + ReplaceAll(tail, what, text)
  {
    assert s[|what|..] == tail;
  }

  lemma ReplaceLater(s: string, c: char, rest: string, what: string, text: string)
    requires what != "" && s == [c] + rest && !(what <= s)
    ensures ReplaceAll(s, what, text) == [c] + ReplaceAll(rest, what, text)
  {
    assert s[1..] == rest && s[0] == c;
  }

  /** The first occurrence gives way to the text, what comes before it stays, and the rest goes on. */
  lemma {:induction false} ReplaceFirst(head: string, what: string, tail: string, text: string)
    requires what != "" && forall i | 0 <= i < |head| :: !(what <= (head + what + tail)[i..])
    ensures ReplaceAll(head + what + tail, what, text) == head + text + ReplaceAll(tail, what, text)
    decreases |head|
  {
    hide ReplaceAll;
    var s := head + what + tail;
    if head == "" {
      ReplaceHere(s, what, tail, text);
    } else {
      var c, rest := head[0], head[1..];
      var later := rest + what + tail;
      assert s == [c] + later && s[0..] == s;
      forall i | 0 <= i < |rest| ensures !(what <= later[i..]) {
        assert s[i + 1..] == later[i..];
      }
      ReplaceLater(s, c, later, what, text);
      ReplaceFirst(rest, what, tail, text);
      assert head + text == [c] + (rest + text);
    }
  }

  lemma {:induction false} ContainsLonger(s: string, part: string, longer: string)
    requires part <= longer && Contains(s, longer)
    ensures Contains(s, part)
    decreases |s|
  {
    if !(longer <= s) {
      ContainsLonger(s[1..], part, longer);
    }
  }

  /** Replacing by text that is not blank leaves text blank only if it was. */
  lemma {:induction false} ReplaceKeepsInk(s: string, what: string, text: string)
    requires !Blank(text)
    ensures Blank(ReplaceAll(s, what, text)) ==> Blank(s)
    decreases |s|
  {
    if s != "" && what != "" {
      if what <= s {
        var i :| 0 <= i < |text| && !IsSpace(text[i]);
        var r := ReplaceAll(s, what, text);
        assert r[i] == text[i];
      } else {
        ReplaceKeepsInk(s[1..], what, text);
        var r := ReplaceAll(s, what, text);
        if Blank(r) {
          assert r[0] == s[0] && r[1..] == ReplaceAll(s[1..], what, text);
          assert forall i | 0 <= i < |r| - 1 :: r[1..][i] == r[i + 1];
          assert forall i | 0 < i < |s| :: s[i] == s[1..][i - 1];
        }
      }
    }
  }
}
