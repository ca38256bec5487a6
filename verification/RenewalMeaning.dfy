/**
 What one renewal asks for and leaves behind: the directory it writes, the record it keeps, and what it
 does not touch (request.go).
 */
module RenewalMeaning {
  import opened Prelude
  import opened Text
  import opened RenewTime
  import opened Renewal

  // ---------- Directories ----------

  const KEPT := "abcdefghijklmnopqrstuvwxyz0123456789.-"

  /** One character of a directory's name: small letters, digits, dots and dashes stay, capitals become
      small, and anything else an underscore. */
  predicate Slugged(c: char, s: char) {
    if c in KEPT then s == c
    else if c in CAPITALS then exists k :: 0 <= k < |CAPITALS| && CAPITALS[k] == c && k < |SMALLS| && SMALLS[k] == s
    else s == '_'
  }

  lemma SlugCharIs(c: char)
    ensures Slugged(c, SlugChar(c))
    ensures SlugChar(c) == '.' <==> c == '.'
    ensures SlugChar(c) == '_' <==> c !in KEPT && c !in CAPITALS
  {
    LettersAre(c);
    KeptIs(c);
    CapitalsAre(c);
    var n := c as int;
    if 65 <= n <= 90 {
      assert CAPITALS[n - 65] as int == n && SMALLS[n - 65] as int == n + 32;
    }
  }

  lemma KeptIs(c: char)
    ensures c in KEPT <==> 'a' <= c <= 'z' || '0' <= c <= '9' || c == '.' || c == '-'
  {
    assert |KEPT| == 38;
    assert forall k | 0 <= k < 26 :: KEPT[k] as int == 97 + k;
    assert forall k | 26 <= k < 36 :: KEPT[k] as int == 22 + k;
    var n := c as int;
    assert 97 <= n <= 122 ==> KEPT[n - 97] == c;
    assert 48 <= n <= 57 ==> KEPT[n - 22] == c;
    assert KEPT[36] == '.' && KEPT[37] == '-';
  }

  lemma CapitalsAre(c: char)
    ensures c in CAPITALS <==> 'A' <= c <= 'Z'
  {
    assert forall k | 0 <= k < 26 :: CAPITALS[k] as int == 65 + k;
    var n := c as int;
    assert 65 <= n <= 90 ==> CAPITALS[n - 65] == c;
  }

  /** Character by character, a first label of one character that is not kept, such as a star, left out. */
  lemma SlugExactly(name: string)
    ensures var skip := if |name| >= 2 && name[0] !in KEPT && name[0] !in CAPITALS && name[1] == '.' then 2 else 0;
            |SlugOf(name)| == |name| - skip && forall i | 0 <= i < |SlugOf(name)| :: Slugged(name[skip + i], SlugOf(name)[i])
  {
    hide SlugChar, Slugged;
    forall i | 0 <= i < |name|
      ensures Slugged(name[i], SlugChar(name[i])) && (SlugChar(name[i]) == '.' <==> name[i] == '.')
      ensures SlugChar(name[i]) == '_' <==> name[i] !in KEPT && name[i] !in CAPITALS
    {
      SlugCharIs(name[i]);
    }
    var mapped := seq(|name|, i requires 0 <= i < |name| => SlugChar(name[i]));
    assert "_."[0] == '_' && "_."[1] == '.';
    assert "_." <= mapped <==> |mapped| >= 2 && mapped[0] == '_' && mapped[1] == '.';
  }

  /** A certificate for all the hosts of a domain is kept under the domain's own name. */
  lemma WildcardDirectory(domain: string)
    requires forall i | 0 <= i < |domain| :: domain[i] in KEPT
    ensures SlugOf("*." + domain) == domain
  {
    hide SlugOf;
    KeptIs('*');
    CapitalsAre('*');
    SlugExactly("*." + domain);
    var s := SlugOf("*." + domain);
    assert forall i | 0 <= i < |domain| :: ("*." + domain)[2 + i] == domain[i];
    assert forall i | 0 <= i < |domain| :: s[i] == domain[i];
  }

  lemma {:induction false} FirstOfClean(names: seq<string>, k: nat)
    requires k < |names| && CleanName(names[k]) != "" && forall j | 0 <= j < k :: CleanName(names[j]) == ""
    ensures Normalized(names) != [] && Normalized(names)[0] == CleanName(names[k])
  {
    hide CleanName;
    var most := names[..|names| - 1];
    assert forall j | 0 <= j < |most| :: most[j] == names[j];
    if k < |most| {
      FirstOfClean(most, k);
    } else {
      NoneClean(most);
    }
  }

  lemma {:induction false} NoneClean(names: seq<string>)
    requires forall j | 0 <= j < |names| :: CleanName(names[j]) == ""
    ensures Normalized(names) == []
  {
    hide CleanName;
    if names != [] {
      assert forall j | 0 <= j < |names| - 1 :: names[..|names| - 1][j] == names[j];
      NoneClean(names[..|names| - 1]);
    }
  }

  /** A request is written under the first name that is not blank, and is not made without one. */
  lemma TargetExactly(names: seq<string>)
    ensures match Target(names)
            case None => forall k | 0 <= k < |names| :: CleanName(names[k]) == ""
            case Some(dir) =>
              exists k :: 0 <= k < |names| && CleanName(names[k]) != "" && dir == SlugOf(CleanName(names[k]))
                          && forall j | 0 <= j < k :: CleanName(names[j]) == ""
  {
    hide CleanName, SlugOf;
    if k: nat :| k < |names| && CleanName(names[k]) != "" {
      var n := FirstInked(names, k);
      FirstOfClean(names, n);
    } else {
      NoneClean(names);
    }
  }

  lemma FirstInked(names: seq<string>, k: nat) returns (n: nat)
    requires k < |names| && CleanName(names[k]) != ""
    ensures n < |names| && CleanName(names[n]) != "" && forall j | 0 <= j < n :: CleanName(names[j]) == ""
  {
    hide CleanName;
    n := 0;
    while CleanName(names[n]) == ""
      invariant n <= k && forall j | 0 <= j < n :: CleanName(names[j]) == ""
      decreases k - n
    {
      n := n + 1;
    }
  }

  // ---------- One turn ----------

  /** A record of an answer: its certificate, its dates, the time it was saved, and the names it lists or,
      if it lists none, its common name. */
  predicate Records(h: Held, answer: Issued, issuedAt: int) {
    && h.id == answer.id && h.notAfter == answer.notAfter && h.renewAfter == answer.renewAfter && h.issuedAt == issuedAt
    && (answer.sans != [] ==> h.names == answer.sans) && (answer.sans == [] ==> h.names == [answer.commonName])
  }

  /**
   One record's turn. It asks only if the record's moment has come, some name is left, and it orders a
   certificate exactly if it asks and one comes back. What is ordered is logged with where it came from and
   was to go; if it can be saved, the record of that one directory becomes the answer's; if not, that record
   may be lost; and no other record changes.
   */
  lemma TurnExactly(s: State, dir: string, held: Held, turn: Turn)
    ensures var s' := TakeTurn(s, dir, held, turn);
            if turn.now < RenewAt(held).0 || Target(held.names).None? || turn.reply.None? || !turn.reply.value.hasCertificate then s' == s
            else
              var to := Target(held.names).value;
              && s'.orders == s.orders + [Order(dir, to, turn.issuedAt, turn.saving == Saved)]
              && (forall other | other != to ::
                    (other in s'.records <==> other in s.records) && (other in s.records ==> s'.records[other] == s.records[other]))
              && (match turn.saving
                  case Saved => to in s'.records && Records(s'.records[to], turn.reply.value, turn.issuedAt)
                  case SaveFailed(true) => to !in s'.records
                  case SaveFailed(false) => s'.records == s.records)
  {
    hide RenewAt, Target;
  }

  /** x is given, once cleaned, before y ever is. */
  predicate GivenBefore(names: seq<string>, x: string, y: string) {
    exists k :: 0 <= k < |names| && CleanName(names[k]) == x && forall m | 0 <= m <= k :: CleanName(names[m]) != y
  }

  /** The clean names stand in the order in which each is first given. */
  lemma {:induction false} NormalizedInOrder(names: seq<string>, i: nat, j: nat)
    requires i < j < |Normalized(names)|
    ensures GivenBefore(names, Normalized(names)[i], Normalized(names)[j])
  {
    hide CleanName, Mentions;
    var most := names[..|names| - 1];
    var before, x, y := Normalized(most), Normalized(names)[i], Normalized(names)[j];
    if j < |before| {
      NormalizedInOrder(most, i, j);
      var k :| 0 <= k < |most| && CleanName(most[k]) == x && forall m | 0 <= m <= k :: CleanName(most[m]) != y;
      assert names[k] == most[k] && forall m | 0 <= m <= k :: names[m] == most[m];
    } else {
      NormalizedHolds(most, x);
      NormalizedHolds(most, y);
      NotMentioned(most, y);
      var k := MentionedAt(most, x);
      assert names[k] == most[k] && forall m | 0 <= m <= k :: names[m] == most[m];
    }
  }

  lemma MentionedAt(names: seq<string>, x: string) returns (k: nat)
    requires Mentions(names, x)
    ensures k < |names| && CleanName(names[k]) == x
  {
    hide CleanName;
    k :| k < |names| && CleanName(names[k]) == x;
  }

  lemma NotMentioned(names: seq<string>, y: string)
    requires !Mentions(names, y)
    ensures forall m | 0 <= m < |names| :: CleanName(names[m]) != y
  {
  }
}
