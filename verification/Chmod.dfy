/** chmod: what an octal or symbolic mode means, as a pair of bit masks. */
module Chmod {
  import opened Text
  import opened Paths
  import opened FlatFs

  datatype Option<T> = None | Some(value: T)

  const MODE_BITS: Mode := 0xFFF   // 0o7777

  function Remask(m: Mode, clear: Mode, put: Mode): Mode {
    (m & !clear) | put
  }

  /** Clear some bits, then set some. */
  datatype Masks = Masks(clear: Mode, put: Mode) {
    function Apply(m: Mode): Mode {
      Remask(m, clear, put)
    }

    /** First these masks, then others. */
    function Then(next: Masks): Masks {
      Masks(clear | next.clear, (put & !next.clear) | next.put)
    }

    /** Nothing outside the twelve permission bits survives. */
    predicate Narrow() {
      clear | MODE_BITS == 0xFFFF && Permissions(put)
    }
  }

  predicate Permissions(m: Mode) {
    m & MODE_BITS == m
  }

  const NARROWING: Masks := Masks(0xF000, 0)

  // ------------------------------------------------------------------ the meaning of a specification

  predicate IsOctal(c: char) {
    '0' <= c <= '7'
  }

  function OctalDigit(c: char): Mode {
    match c
    case '1' => 1
    case '2' => 2
    case '3' => 3
    case '4' => 4
    case '5' => 5
    case '6' => 6
    case '7' => 7
    case _ => 0
  }

  /** int(s, 8), for at most four digits. */
  function OctalValue(s: string): Mode {
    if s == "" then 0 else ShiftedIn(OctalValue(s[..|s| - 1]), OctalDigit(s[|s| - 1]))
  }

  function ShiftedIn(m: Mode, digit: Mode): Mode {
    (m << 3) | digit
  }

  predicate IsWho(c: char) {
    c == 'u' || c == 'g' || c == 'o' || c == 'a'
  }

  predicate IsPerm(c: char) {
    c == 'r' || c == 'w' || c == 'x' || c == 's' || c == 't'
  }

  function WhoLength(clause: string): (n: nat)
    ensures n <= |clause|
  {
    if clause != "" && IsWho(clause[0]) then 1 + WhoLength(clause[1..]) else 0
  }

  /** The bit one permission letter means for one subject. */
  function PermBit(subject: char, perm: char): Mode {
    if perm == 't' then 0x200
    else if subject == 'u' then (match perm case 'r' => 0x100 case 'w' => 0x80 case 'x' => 0x40 case 's' => 0x800 case _ => 0)
    else if subject == 'g' then (match perm case 'r' => 0x20 case 'w' => 0x10 case 'x' => 0x8 case 's' => 0x400 case _ => 0)
    else (match perm case 'r' => 0x4 case 'w' => 0x2 case 'x' => 0x1 case _ => 0)
  }

  function PermBits(subject: char, perms: string): Mode {
    if perms == "" then 0 else PermBits(subject, perms[..|perms| - 1]) | PermBit(subject, perms[|perms| - 1])
  }

  /** All bits the letters mean for the subjects among u, g and o. */
  function Delta(subjects: set<char>, perms: string): Mode {
    OrThree(Part(subjects, 'u', perms), Part(subjects, 'g', perms), Part(subjects, 'o', perms))
  }

  function OrThree(u: Mode, g: Mode, o: Mode): Mode {
    (u | g) | o
  }

  function Part(subjects: set<char>, subject: char, perms: string): Mode {
    if subject in subjects then PermBits(subject, perms) else 0
  }

  function WhoMask(subjects: set<char>): Mode {
    (if 'u' in subjects then 0x9C0 else 0) | (if 'g' in subjects then 0x438 else 0) | (if 'o' in subjects then 0x207 else 0)
  }

  function Subjects(who: string): set<char> {
    if who == "" || 'a' in who then {'u', 'g', 'o'} else set c | c in who
  }

  function ClauseMasks(clause: string): Option<Masks> {
    var n := WhoLength(clause);
    if n >= |clause| || (clause[n] != '+' && clause[n] != '-' && clause[n] != '=') then None
    else
      var perms, subjects := clause[n + 1..], Subjects(clause[..n]);
      if exists c :: c in perms && !IsPerm(c) then None
      else Some(OpMasks(clause[n], WhoMask(subjects), Delta(subjects, perms)))
  }

  function OpMasks(op: char, who: Mode, delta: Mode): Masks {
    match op
    case '+' => Masks(0, delta)
    case '-' => Masks(delta, 0)
    case _ => Masks(who, delta)
  }

  /** The clauses of a symbolic mode, applied in order to the permission bits of a mode. */
  function ClausesMasks(clauses: seq<string>): Option<Masks> {
    if clauses == [] then Some(NARROWING)
    else
      match (ClausesMasks(clauses[..|clauses| - 1]), ClauseMasks(clauses[|clauses| - 1]))
      case (Some(before), Some(last)) => Some(before.Then(last))
      case (_, _) => None
  }

  /** What a specification means, whatever mode it is applied to; None if it is malformed. */
  function SpecMasks(spec: string): Option<Masks> {
    var s := Strip(spec);
    if s == "" then None
    else if forall c :: c in s ==> IsOctal(c) then
      if |s| > 4 then None else Some(Masks(0xFFFF, OctalValue(s) & MODE_BITS))
    else ClausesMasks(Split(s, ','))
  }

  // ------------------------------------------------------------------ the code

  method ApplyChmodMode(current: Mode, spec: string) returns (r: Option<Mode>)
    ensures r == match SpecMasks(spec) case None => None case Some(masks) => Some(masks.Apply(current))
  {
    hide ClauseMasks, Strip, Split, OctalValue, Masks.Apply, Masks.Then;
    var stripped := Strip(spec);
    if stripped == "" {
      return None;
    }
    if forall c :: c in stripped ==> IsOctal(c) {
      if |stripped| > 4 {
        return None;
      }
      OctalReplaces(current, OctalValue(stripped));
      return Some(OctalValue(stripped) & MODE_BITS);
    }
    var result := current & MODE_BITS;
    NarrowingKeepsBits(current);
    var clauses := Split(stripped, ',');
    for i := 0 to |clauses|
      invariant ClausesMasks(clauses[..i]).Some? && result == ClausesMasks(clauses[..i]).value.Apply(current)
    {
      assert clauses[..i + 1][..i] == clauses[..i];
      var next := ApplySymbolicClause(result, clauses[i]);
      if next.None? {
        MalformedStays(clauses, i + 1);
        return None;
      }
      ThenApplies(ClausesMasks(clauses[..i]).value, ClauseMasks(clauses[i]).value, current);
      result := next.value;
    }
    assert clauses[..|clauses|] == clauses;
    r := Some(result);
  }

  method ApplySymbolicClause(current: Mode, clause: string) returns (r: Option<Mode>)
    ensures r == match ClauseMasks(clause) case None => None case Some(masks) => Some(masks.Apply(current))
  {
    hide Delta, Subjects, IsPerm, WhoMask, OpMasks;
    var index := 0;
    while index < |clause| && IsWho(clause[index])
      invariant 0 <= index <= |clause|
      invariant WhoLength(clause) == index + WhoLength(clause[index..])
      invariant forall i :: 0 <= i < index ==> IsWho(clause[i])
    {
      assert clause[index..][1..] == clause[index + 1..];
      index := index + 1;
    }
    assert index == WhoLength(clause);
    if index >= |clause| || (clause[index] != '+' && clause[index] != '-' && clause[index] != '=') {
      return None;
    }
    var op, perms := clause[index], clause[index + 1..];
    if exists c :: c in perms && !IsPerm(c) {
      return None;
    }
    var subjects := Subjects(clause[..index]);
    SubjectsAreKnown(clause, index);
    var delta := CollectBits(subjects, perms);
    var whoMask := CollectWho(subjects);
    r := Some(ApplyOp(op, current, whoMask, delta));
  }

  function ApplyOp(op: char, current: Mode, whoMask: Mode, delta: Mode): (r: Mode)
    ensures r == OpMasks(op, whoMask, delta).Apply(current)
  {
    BitCases(current, delta);
    if op == '+' then current | delta
    else if op == '-' then current & !delta
    else (current & !whoMask) | delta
  }

  method CollectWho(subjects: set<char>) returns (whoMask: Mode)
    ensures whoMask == WhoMask(subjects)
  {
    whoMask := 0;
    if 'u' in subjects {
      whoMask := whoMask | 0x9C0;
    }
    if 'g' in subjects {
      whoMask := whoMask | 0x438;
    }
    if 'o' in subjects {
      whoMask := whoMask | 0x207;
    }
  }

  /** The bits are collected subject by subject, in whatever order the set yields them. */
  method CollectBits(subjects: set<char>, perms: string) returns (delta: Mode)
    requires subjects <= {'u', 'g', 'o'}
    ensures delta == Delta(subjects, perms)
  {
    hide PermBits, Delta;
    delta := 0;
    var toVisit := subjects;
    ghost var visited: set<char> := {};
    NoBits(perms);
    while toVisit != {}
      invariant visited + toVisit == subjects && visited !! toVisit
      invariant delta == Delta(visited, perms)
      decreases toVisit
    {
      var subject :| subject in toVisit;
      delta := AddBits(delta, subject, perms);
      DeltaGrows(visited, subject, perms);
      toVisit := toVisit - {subject};
      visited := visited + {subject};
    }
    assert visited == subjects;
  }

  method AddBits(before: Mode, subject: char, perms: string) returns (delta: Mode)
    ensures delta == before | PermBits(subject, perms)
  {
    hide PermBit;
    delta := before;
    NothingAdded(before);
    for i := 0 to |perms|
      invariant delta == before | PermBits(subject, perms[..i])
    {
      assert perms[..i + 1][..i] == perms[..i];
      OrAssociates(before, PermBits(subject, perms[..i]), PermBit(subject, perms[i]));
      delta := delta | PermBit(subject, perms[i]);
    }
    assert perms[..|perms|] == perms;
  }

  lemma NoBits(perms: string)
    ensures Delta({}, perms) == 0
  {
  }

  lemma NothingAdded(before: Mode)
    ensures before | 0 == before
  {
  }

  // ------------------------------------------------------------------ what chmod promises

  /**
   * The bit table is that of POSIX: read, write and execute are 4, 2 and 1 for others, three places higher for the
   * group, six for the user; setuid, setgid and the sticky bit are the three above. An assignment clears just what
   * its subjects' letters can set, except that `t` sets the sticky bit for anyone but only `o` clears it.
   */
  lemma TableIsPosix(perm: char)
    requires IsPerm(perm)
    ensures PermBit('o', 'r') == 4 && PermBit('o', 'w') == 2 && PermBit('o', 'x') == 1 && PermBit('o', 's') == 0
    ensures perm != 's' && perm != 't' ==>
      PermBit('g', perm) == PermBit('o', perm) << 3 && PermBit('u', perm) == PermBit('o', perm) << 6
    ensures PermBit('u', 's') == 4 << 9 && PermBit('g', 's') == 2 << 9
    ensures PermBit('u', 't') == PermBit('g', 't') == PermBit('o', 't') == 1 << 9
    ensures WhoMask({'u'}) == 0x1C0 | PermBit('u', 's') && WhoMask({'g'}) == 0x38 | PermBit('g', 's')
    ensures WhoMask({'o'}) == 0x7 | PermBit('o', 't')
  {
    UserMask();
    GroupMask();
    OtherMask();
  }

  lemma UserMask()
    ensures WhoMask({'u'}) == 0x9C0
  {
    assert 'g' !in {'u'} && 'o' !in {'u'};
  }

  lemma GroupMask()
    ensures WhoMask({'g'}) == 0x438
  {
    assert 'u' !in {'g'} && 'o' !in {'g'};
  }

  lemma OtherMask()
    ensures WhoMask({'o'}) == 0x207
  {
    assert 'u' !in {'o'} && 'g' !in {'o'};
  }

  /** These bits are on, the others are as they were. */
  predicate SetsExactly(before: Mode, after: Mode, bits: Mode) {
    after & bits == bits && after & !bits == before & !bits
  }

  predicate ClearsExactly(before: Mode, after: Mode, bits: Mode) {
    after & bits == 0 && after & !bits == before & !bits
  }

  /** Of the cleared and the named bits exactly the named ones are on, the others are as they were. */
  predicate AssignsExactly(before: Mode, after: Mode, cleared: Mode, named: Mode) {
    HoldsJust(after, cleared, named) && SparesOthers(before, after, cleared, named)
  }

  predicate HoldsJust(after: Mode, cleared: Mode, named: Mode) {
    after & (cleared | named) == named
  }

  predicate SparesOthers(before: Mode, after: Mode, cleared: Mode, named: Mode) {
    after & !(cleared | named) == before & !(cleared | named)
  }

  /** What a clause does: `+` sets, `-` clears, `=` makes the subjects' bits exactly the named ones. */
  lemma ClauseMeaning(op: char, who: Mode, delta: Mode, m: Mode)
    ensures op == '+' ==> SetsExactly(m, OpMasks(op, who, delta).Apply(m), delta)
    ensures op == '-' ==> ClearsExactly(m, OpMasks(op, who, delta).Apply(m), delta)
    ensures op == '=' ==> AssignsExactly(m, OpMasks(op, who, delta).Apply(m), who, delta)
  {
    hide SetsExactly, ClearsExactly, AssignsExactly, Masks.Apply;
    SetBits(m, delta);
    ClearedBits(m, delta);
    AssignedBits(m, who, delta);
  }

  lemma SetBits(m: Mode, delta: Mode)
    ensures SetsExactly(m, Masks(0, delta).Apply(m), delta)
  {
    BitCases(m, delta);
    hide Masks.Apply;
    OrSets(m, delta);
    OrSpares(m, delta);
  }

  lemma OrSets(m: Mode, delta: Mode)
    ensures (m | delta) & delta == delta
  {
  }

  lemma OrSpares(m: Mode, delta: Mode)
    ensures (m | delta) & !delta == m & !delta
  {
  }

  lemma ClearedBits(m: Mode, delta: Mode)
    ensures ClearsExactly(m, Masks(delta, 0).Apply(m), delta)
  {
    BitCases(m, delta);
    hide Masks.Apply;
    AndClears(m, delta);
  }

  lemma AndClears(m: Mode, delta: Mode)
    ensures (m & !delta) & delta == 0 && (m & !delta) & !delta == m & !delta
  {
  }

  lemma AssignedBits(m: Mode, who: Mode, delta: Mode)
    ensures AssignsExactly(m, Masks(who, delta).Apply(m), who, delta)
  {
    hide Remask, HoldsJust, SparesOthers;
    AssignSets(m, who, delta);
    AssignSpares(m, who, delta);
  }

  lemma AssignSets(m: Mode, who: Mode, delta: Mode)
    ensures HoldsJust(Remask(m, who, delta), who, delta)
  {
  }

  lemma AssignSpares(m: Mode, who: Mode, delta: Mode)
    ensures SparesOthers(m, Remask(m, who, delta), who, delta)
  {
  }

  // ------------------------------------------------------------------ which specifications there are, and what they say

  /** The octal digit of a mode that is so many places from the right. */
  function OctalPlace(m: Mode, place: nat): Mode
    requires place < 4
  {
    match place
    case 0 => m & 7
    case 1 => (m >> 3) & 7
    case 2 => (m >> 6) & 7
    case _ => (m >> 9) & 7
  }

  /** The digit of a text so many places from the right, or zero. */
  function DigitFromRight(s: string, place: nat): int {
    if place < |s| then s[|s| - 1 - place] as int - '0' as int else 0
  }

  predicate OneDigit(m: Mode) {
    m & 7 == m
  }

  lemma DigitIsItself(c: char)
    requires '0' <= c <= '7'
    ensures OctalDigit(c) as int == c as int - '0' as int && OneDigit(OctalDigit(c))
  {
  }

  lemma ShiftIn(m: Mode, d: Mode)
    requires m & 0xE000 == 0 && OneDigit(d)
    ensures OctalPlace(ShiftedIn(m, d), 0) == d
    ensures OctalPlace(ShiftedIn(m, d), 1) == OctalPlace(m, 0)
    ensures OctalPlace(ShiftedIn(m, d), 2) == OctalPlace(m, 1)
    ensures OctalPlace(ShiftedIn(m, d), 3) == OctalPlace(m, 2)
  {
  }

  lemma ShiftStaysShort(m: Mode, d: Mode)
    requires OneDigit(d)
    ensures m == 0 ==> ShiftedIn(m, d) & 0xFFF8 == 0
    ensures m & 0xFFF8 == 0 ==> ShiftedIn(m, d) & 0xFFC0 == 0
    ensures m & 0xFFC0 == 0 ==> ShiftedIn(m, d) & 0xFE00 == 0
    ensures m & 0xFE00 == 0 ==> ShiftedIn(m, d) & 0xF000 == 0
  {
  }

  lemma ShortSpares(m: Mode)
    ensures m == 0 || m & 0xFFF8 == 0 || m & 0xFFC0 == 0 || m & 0xFE00 == 0 ==> m & 0xE000 == 0
    ensures m == 0 || m & 0xFFF8 == 0 || m & 0xFFC0 == 0 || m & 0xFE00 == 0 || m & 0xF000 == 0 ==> m & MODE_BITS == m
  {
  }

  /** How few bits a value of so many octal digits needs. */
  predicate Short(m: Mode, digits: nat)
    requires digits <= 4
  {
    match digits
    case 0 => m == 0
    case 1 => m & 0xFFF8 == 0
    case 2 => m & 0xFFC0 == 0
    case 3 => m & 0xFE00 == 0
    case _ => m & 0xF000 == 0
  }

  lemma ShortGrows(m: Mode, d: Mode, digits: nat)
    requires digits < 4 && Short(m, digits) && OneDigit(d)
    ensures Short(ShiftedIn(m, d), digits + 1) && m & 0xE000 == 0
  {
    hide ShiftedIn, OneDigit;
    ShiftStaysShort(m, d);
    ShortSpares(m);
  }

  lemma ZeroPlaces()
    ensures forall place: nat :: place < 4 ==> OctalPlace(0, place) == 0
  {
  }

  lemma {:induction false} OctalValuePlaces(s: string, place: nat)
    requires |s| <= 4 && place < 4 && forall i :: 0 <= i < |s| ==> '0' <= s[i] <= '7'
    ensures Short(OctalValue(s), |s|)
    ensures OctalPlace(OctalValue(s), place) as int == DigitFromRight(s, place)
    decreases |s|
  {
    hide OctalPlace, OctalDigit, Short, ShiftedIn, OneDigit;
    if s == "" {
      ZeroPlaces();
      NothingIsShort();
    } else {
      var front, last := s[..|s| - 1], s[|s| - 1];
      var m, d := OctalValue(front), OctalDigit(last);
      DigitIsItself(last);
      OctalValuePlaces(front, if place == 0 then 0 else place - 1);
      ShortGrows(m, d, |front|);
      ShiftIn(m, d);
    }
  }

  lemma NothingIsShort()
    ensures Short(0, 0)
  {
  }

  lemma ShortIsPermissions(m: Mode, digits: nat)
    requires digits <= 4 && Short(m, digits)
    ensures Permissions(m) && m & MODE_BITS == m
  {
    ShortSpares(m);
  }

  /**
   * An octal specification of one to four digits replaces the mode by exactly those digits, the last for others,
   * then group, user and the special bits; more digits are malformed, and so is nothing.
   */
  lemma OctalExactly(spec: string, m: Mode, place: nat)
    requires place < 4
    ensures var s := Strip(spec);
      && (s == "" ==> SpecMasks(spec).None?)
      && (s != "" && (forall i :: 0 <= i < |s| ==> '0' <= s[i] <= '7') ==>
            && (SpecMasks(spec).Some? <==> |s| <= 4)
            && (|s| <= 4 ==>
                  && OctalPlace(SpecMasks(spec).value.Apply(m), place) as int == DigitFromRight(s, place)
                  && Permissions(SpecMasks(spec).value.Apply(m))))
      && (s != "" && !(forall i :: 0 <= i < |s| ==> '0' <= s[i] <= '7') ==> SpecMasks(spec) == ClausesMasks(Split(s, ',')))
  {
    hide OctalPlace, OctalValue, Short, Permissions, ClausesMasks, Split, Masks.Apply, Strip, IsOctal;
    var s := Strip(spec);
    OctalByPlace(s);
    if s != "" && |s| <= 4 && forall i :: 0 <= i < |s| ==> '0' <= s[i] <= '7' {
      OctalResult(s, m, place);
    }
  }

  lemma OctalResult(s: string, m: Mode, place: nat)
    requires place < 4 && |s| <= 4 && forall i :: 0 <= i < |s| ==> '0' <= s[i] <= '7'
    ensures var r := Masks(0xFFFF, OctalValue(s) & MODE_BITS).Apply(m);
      OctalPlace(r, place) as int == DigitFromRight(s, place) && Permissions(r)
  {
    hide OctalPlace, OctalValue, Short, Permissions, Masks.Apply;
    OctalValuePlaces(s, place);
    ShortIsPermissions(OctalValue(s), |s|);
    OctalReplaces(m, OctalValue(s));
  }

  lemma OctalByPlace(s: string)
    ensures (forall c :: c in s ==> IsOctal(c)) <==> forall i :: 0 <= i < |s| ==> '0' <= s[i] <= '7'
  {
    forall i | 0 <= i < |s|
      ensures s[i] in s
    {
    }
  }

  /** A list of clauses is well-formed exactly if each of them is; without clauses the twelve bits stay. */
  lemma {:induction false} ClausesExactly(clauses: seq<string>, m: Mode)
    ensures ClausesMasks(clauses).Some? <==> forall i :: 0 <= i < |clauses| ==> ClauseMasks(clauses[i]).Some?
    ensures clauses == [] ==> ClausesMasks(clauses).value.Apply(m) == m & 0xFFF
    decreases |clauses|
  {
    hide ClauseMasks, Masks.Then;
    if clauses == [] {
      NarrowingKeepsBits(m);
    } else {
      var front := clauses[..|clauses| - 1];
      ClausesExactly(front, m);
      assert forall i :: 0 <= i < |front| ==> front[i] == clauses[i];
    }
  }

  /** The clause is some subjects, an operator and some permissions. */
  ghost predicate ClauseForm(clause: string, who: string, op: char, perms: string) {
    && clause == who + [op] + perms && (op == '+' || op == '-' || op == '=')
    && (forall i :: 0 <= i < |who| ==> who[i] == 'u' || who[i] == 'g' || who[i] == 'o' || who[i] == 'a')
    && forall i :: 0 <= i < |perms| ==> perms[i] == 'r' || perms[i] == 'w' || perms[i] == 'x' || perms[i] == 's' || perms[i] == 't'
  }

  /** No subjects, or an `a` among them, means all three. */
  ghost function Named(who: string): set<char> {
    if who == "" || 'a' in who then {'u', 'g', 'o'} else set c | c in who
  }

  lemma {:induction false} WhoLengthExactly(clause: string)
    ensures forall i :: 0 <= i < WhoLength(clause) ==> IsWho(clause[i])
    ensures WhoLength(clause) < |clause| ==> !IsWho(clause[WhoLength(clause)])
  {
    if clause != "" && IsWho(clause[0]) {
      WhoLengthExactly(clause[1..]);
      assert forall i :: 1 <= i < |clause| ==> clause[i] == clause[1..][i - 1];
    }
  }

  /** A clause is well-formed exactly if it has that form, and means its operator on its subjects and permissions. */
  lemma ClauseExactly(clause: string, masks: Masks)
    ensures ClauseMasks(clause) == Some(masks) <==>
      exists who, op, perms :: ClauseForm(clause, who, op, perms)
        && masks == OpMasks(op, WhoMask(Named(who)), Delta(Named(who), perms))
  {
    hide OpMasks, WhoMask, Delta, WhoLength, ClauseForm, ClauseMasks;
    if ClauseMasks(clause) == Some(masks) {
      var who, op, perms := ClauseParts(clause);
      ClauseReads(clause, who, op, perms);
    }
    forall who, op, perms | ClauseForm(clause, who, op, perms)
      ensures ClauseMasks(clause) == Some(OpMasks(op, WhoMask(Named(who)), Delta(Named(who), perms)))
    {
      ClauseReads(clause, who, op, perms);
    }
  }

  lemma ClauseParts(clause: string) returns (who: string, op: char, perms: string)
    requires ClauseMasks(clause).Some?
    ensures ClauseForm(clause, who, op, perms)
  {
    hide OpMasks, WhoMask, Delta, WhoLength, Subjects;
    WhoLengthExactly(clause);
    var n := WhoLength(clause);
    who, op, perms := clause[..n], clause[n], clause[n + 1..];
    forall i | 0 <= i < |perms|
      ensures IsPerm(perms[i])
    {
      assert perms[i] in perms;
    }
    assert clause == who + [op] + perms;
  }

  lemma {:induction false} LengthOfWho(clause: string, n: nat)
    requires n < |clause| && (forall i :: 0 <= i < n ==> IsWho(clause[i])) && !IsWho(clause[n])
    ensures WhoLength(clause) == n
  {
    if n > 0 {
      LengthOfWho(clause[1..], n - 1);
    }
  }

  lemma ClauseReads(clause: string, who: string, op: char, perms: string)
    requires ClauseForm(clause, who, op, perms)
    ensures ClauseMasks(clause) == Some(OpMasks(op, WhoMask(Named(who)), Delta(Named(who), perms)))
  {
    hide OpMasks, WhoMask, Delta, WhoLength;
    var n := |who|;
    assert clause[n] == op && forall i :: 0 <= i < n ==> clause[i] == who[i];
    LengthOfWho(clause, n);
    assert clause[..n] == who && clause[n + 1..] == perms;
    forall c | c in perms
      ensures IsPerm(c)
    {
    }
  }

  function Common(a: Mode, b: Mode): Mode {
    a & b
  }

  /** The two have a bit in common. */
  predicate Meets(a: Mode, b: Mode) {
    Common(a, b) != 0
  }

  lemma CommonOfOr(a: Mode, b: Mode, bits: Mode)
    ensures Common(a | b, bits) == Common(a, bits) | Common(b, bits)
  {
  }

  lemma OrIsZero(a: Mode, b: Mode)
    ensures a | b == 0 <==> a == 0 && b == 0
  {
  }

  lemma EitherBit(a: Mode, b: Mode, bits: Mode)
    ensures Meets(a | b, bits) <==> Meets(a, bits) || Meets(b, bits)
  {
    hide Common;
    CommonOfOr(a, b, bits);
    OrIsZero(Common(a, bits), Common(b, bits));
  }

  lemma NoBit(bits: Mode)
    ensures !Meets(0, bits)
  {
  }

  lemma PermBitsStep(subject: char, perms: string, bits: Mode)
    ensures perms == "" ==> !Meets(PermBits(subject, perms), bits)
    ensures perms != "" ==>
      var front, last := perms[..|perms| - 1], perms[|perms| - 1];
      Meets(PermBits(subject, perms), bits) <==> Meets(PermBits(subject, front), bits) || Meets(PermBit(subject, last), bits)
  {
    hide PermBit, Meets;
    NoBit(bits);
    if perms != "" {
      EitherBit(PermBits(subject, perms[..|perms| - 1]), PermBit(subject, perms[|perms| - 1]), bits);
    }
  }

  /** The bits of some letters for one subject are those of each letter. */
  lemma {:induction false} PermBitsExactly(subject: char, perms: string, bits: Mode)
    ensures Meets(PermBits(subject, perms), bits) <==> exists i :: 0 <= i < |perms| && Meets(PermBit(subject, perms[i]), bits)
    decreases |perms|
  {
    hide PermBit, Meets, PermBits;
    PermBitsStep(subject, perms, bits);
    if perms != "" {
      var front, last := perms[..|perms| - 1], perms[|perms| - 1];
      PermBitsExactly(subject, front, bits);
      assert forall i :: 0 <= i < |front| ==> front[i] == perms[i];
      if i :| 0 <= i < |perms| && Meets(PermBit(subject, perms[i]), bits) {
        assert i == |front| || Meets(PermBit(subject, front[i]), bits);
      }
      if Meets(PermBit(subject, last), bits) {
        assert perms[|front|] == last;
      }
    }
  }

  /** What a clause names is every permission of its letters for every one of its subjects, and nothing else. */
  lemma DeltaExactly(subjects: set<char>, perms: string, bits: Mode)
    requires subjects <= {'u', 'g', 'o'}
    ensures Meets(Delta(subjects, perms), bits) <==>
      exists c, i :: c in subjects && 0 <= i < |perms| && Meets(PermBit(c, perms[i]), bits)
  {
    hide PermBit, PermBits, Part, Meets, Delta;
    DeltaOfParts(subjects, perms, bits);
    PartExactly(subjects, 'u', perms, bits);
    PartExactly(subjects, 'g', perms, bits);
    PartExactly(subjects, 'o', perms, bits);
    assert forall c :: c in subjects ==> c == 'u' || c == 'g' || c == 'o';
  }

  lemma DeltaOfParts(subjects: set<char>, perms: string, bits: Mode)
    ensures Meets(Delta(subjects, perms), bits) <==>
      Meets(Part(subjects, 'u', perms), bits) || Meets(Part(subjects, 'g', perms), bits) || Meets(Part(subjects, 'o', perms), bits)
  {
    hide Part, Meets, OrThree;
    AnyOfThree(Part(subjects, 'u', perms), Part(subjects, 'g', perms), Part(subjects, 'o', perms), bits);
  }

  lemma AnyOfThree(u: Mode, g: Mode, o: Mode, bits: Mode)
    ensures Meets(OrThree(u, g, o), bits) <==> Meets(u, bits) || Meets(g, bits) || Meets(o, bits)
  {
    hide Common, OrThree;
    CommonOfThree(u, g, o, bits);
    ThreeAreZero(Common(u, bits), Common(g, bits), Common(o, bits));
  }

  lemma CommonOfThree(u: Mode, g: Mode, o: Mode, bits: Mode)
    ensures Common(OrThree(u, g, o), bits) == (Common(u, bits) | Common(g, bits)) | Common(o, bits)
  {
  }

  lemma ThreeAreZero(a: Mode, b: Mode, c: Mode)
    ensures (a | b) | c == 0 <==> a == 0 && b == 0 && c == 0
  {
  }

  lemma PartExactly(subjects: set<char>, c: char, perms: string, bits: Mode)
    ensures Meets(Part(subjects, c, perms), bits) <==>
      c in subjects && exists i :: 0 <= i < |perms| && Meets(PermBit(c, perms[i]), bits)
  {
    hide PermBit, PermBits, Meets;
    PermBitsExactly(c, perms, bits);
    NoBit(bits);
  }

  /** What an assignment clears for several subjects is what it clears for each. */
  lemma WhoMaskExactly(subjects: set<char>, bits: Mode)
    requires subjects <= {'u', 'g', 'o'}
    ensures Meets(WhoMask(subjects), bits) <==> exists c :: c in subjects && Meets(WhoMask({c}), bits)
  {
    hide Meets;
    UserMask();
    GroupMask();
    OtherMask();
    NoBit(bits);
    var u, g, o: Mode := if 'u' in subjects then 0x9C0 else 0, if 'g' in subjects then 0x438 else 0, if 'o' in subjects then 0x207 else 0;
    EitherBit(u, g, bits);
    EitherBit(u | g, o, bits);
    assert forall c :: c in subjects ==> c == 'u' || c == 'g' || c == 'o';
  }

  /** Every well-formed specification yields a mode of twelve bits, and applying it a second time changes nothing. */
  lemma ChmodStaysNarrowAndIsIdempotent(spec: string, m: Mode)
    requires SpecMasks(spec).Some?
    ensures Permissions(SpecMasks(spec).value.Apply(m))
    ensures SpecMasks(spec).value.Apply(SpecMasks(spec).value.Apply(m)) == SpecMasks(spec).value.Apply(m)
  {
    hide SpecMasks, Masks.Apply, Permissions;
    SpecIsNarrow(spec);
    NarrowTwice(SpecMasks(spec).value, m);
  }

  lemma NarrowTwice(masks: Masks, m: Mode)
    requires masks.Narrow()
    ensures Permissions(masks.Apply(m)) && masks.Apply(masks.Apply(m)) == masks.Apply(m)
  {
    hide Masks.Apply, Masks.Narrow, Permissions;
    ApplyIsNarrow(masks, m);
    ApplyTwice(masks, m);
  }

  lemma ApplyIsNarrow(masks: Masks, m: Mode)
    requires masks.Narrow()
    ensures Permissions(masks.Apply(m))
  {
    NarrowResult(masks.clear, masks.put, m);
  }

  lemma ApplyTwice(masks: Masks, m: Mode)
    ensures masks.Apply(masks.Apply(m)) == masks.Apply(m)
  {
    SameMasksTwice(masks.clear, masks.put, m);
  }

  /** Two specifications in a row act as one pair of masks. */
  lemma ChmodsCompose(first: string, second: string, m: Mode)
    requires SpecMasks(first).Some? && SpecMasks(second).Some?
    ensures var both := SpecMasks(first).value.Then(SpecMasks(second).value);
      both.Narrow() && both.Apply(m) == SpecMasks(second).value.Apply(SpecMasks(first).value.Apply(m))
  {
    ThenApplies(SpecMasks(first).value, SpecMasks(second).value, m);
    SpecIsNarrow(first);
    SpecIsNarrow(second);
    ThenIsNarrow(SpecMasks(first).value, SpecMasks(second).value);
  }

  /**
   * Joining two symbolic specifications with a comma is the same as running one and then the other: the clauses
   * of the first need no re-narrowing by the second, and a malformed half makes the whole malformed.
   */
  lemma {:induction false} ClausesCompose(first: seq<string>, second: seq<string>, m: Mode)
    ensures ClausesMasks(first + second).None? <==> ClausesMasks(first).None? || ClausesMasks(second).None?
    ensures ClausesMasks(first + second).Some? ==>
      ClausesMasks(first + second).value.Apply(m) == ClausesMasks(second).value.Apply(ClausesMasks(first).value.Apply(m))
    decreases |second|
  {
    if second == [] {
      assert first + second == first;
      if ClausesMasks(first).Some? {
        ClausesAreNarrow(first);
        var masks := ClausesMasks(first).value;
        NarrowResult(masks.clear, masks.put, m);
        NarrowingKeepsBits(masks.Apply(m));
      }
    } else {
      var shorter, last := second[..|second| - 1], second[|second| - 1];
      ClausesCompose(first, shorter, m);
      assert (first + second)[..|first + second| - 1] == first + shorter;
      if ClausesMasks(first + second).Some? {
        ThenApplies(ClausesMasks(first + shorter).value, ClauseMasks(last).value, m);
        ThenApplies(ClausesMasks(shorter).value, ClauseMasks(last).value, ClausesMasks(first).value.Apply(m));
      }
    }
  }

  lemma SpecIsNarrow(spec: string)
    requires SpecMasks(spec).Some?
    ensures SpecMasks(spec).value.Narrow()
  {
    hide Masks.Narrow, OctalValue, ClausesMasks;
    var s := Strip(spec);
    if forall c :: c in s ==> IsOctal(c) {
      NarrowOctal(OctalValue(s));
    } else {
      ClausesAreNarrow(Split(s, ','));
    }
  }

  lemma NarrowOctal(value: Mode)
    ensures Masks(0xFFFF, value & MODE_BITS).Narrow()
  {
  }

  lemma {:induction false} ClausesAreNarrow(clauses: seq<string>)
    requires ClausesMasks(clauses).Some?
    ensures ClausesMasks(clauses).value.Narrow()
    decreases |clauses|
  {
    hide ClauseMasks, Masks.Then;
    if clauses != [] {
      var shorter, last := clauses[..|clauses| - 1], clauses[|clauses| - 1];
      ClausesAreNarrow(shorter);
      ClausePutsPermissionBits(last);
      ClauseKeepsNarrow(ClausesMasks(shorter).value, ClauseMasks(last).value);
    }
  }

  /** A clause only ever sets permission bits. */
  lemma ClausePutsPermissionBits(clause: string)
    requires ClauseMasks(clause).Some?
    ensures Permissions(ClauseMasks(clause).value.put)
  {
    hide Delta, Subjects, Permissions;
    ZeroIsPermissions();
    var n := WhoLength(clause);
    DeltaIsPermissionBits(Subjects(clause[..n]), clause[n + 1..]);
  }

  lemma DeltaIsPermissionBits(subjects: set<char>, perms: string)
    ensures Permissions(Delta(subjects, perms))
  {
    hide PermBits, Permissions, OrThree;
    ZeroIsPermissions();
    PermBitsArePermissionBits('u', perms);
    PermBitsArePermissionBits('g', perms);
    PermBitsArePermissionBits('o', perms);
    PartsArePermissionBits(Part(subjects, 'u', perms), Part(subjects, 'g', perms), Part(subjects, 'o', perms));
  }

  lemma {:induction false} PermBitsArePermissionBits(subject: char, perms: string)
    ensures Permissions(PermBits(subject, perms))
    decreases |perms|
  {
    hide Permissions, PermBit;
    ZeroIsPermissions();
    if perms != "" {
      PermBitsArePermissionBits(subject, perms[..|perms| - 1]);
      PermBitIsPermissionBit(subject, perms[|perms| - 1]);
      PartsArePermissionBits(PermBits(subject, perms[..|perms| - 1]), PermBit(subject, perms[|perms| - 1]), 0);
    }
  }

  lemma PermBitIsPermissionBit(subject: char, perm: char)
    ensures Permissions(PermBit(subject, perm))
  {
  }

  lemma ZeroIsPermissions()
    ensures Permissions(0)
  {
  }

  lemma PartsArePermissionBits(a: Mode, b: Mode, c: Mode)
    requires Permissions(a) && Permissions(b) && Permissions(c)
    ensures Permissions(OrThree(a, b, c)) && Permissions(a | b)
  {
  }

  lemma ThenIsNarrow(a: Masks, b: Masks)
    requires a.Narrow() && b.Narrow()
    ensures a.Then(b).Narrow()
  {
    ClauseKeepsNarrow(a, b);
  }

  lemma ClauseKeepsNarrow(a: Masks, b: Masks)
    requires a.Narrow() && Permissions(b.put)
    ensures a.Then(b).Narrow()
  {
    NarrowBits(a.clear, a.put, b.clear, b.put);
  }

  lemma NarrowBits(c: Mode, p: Mode, c': Mode, p': Mode)
    requires c | MODE_BITS == 0xFFFF && Permissions(p) && Permissions(p')
    ensures (c | c') | MODE_BITS == 0xFFFF
    ensures Permissions((p & !c') | p')
  {
  }

  lemma NarrowResult(c: Mode, p: Mode, m: Mode)
    requires c | MODE_BITS == 0xFFFF && Permissions(p)
    ensures Permissions((m & !c) | p)
  {
  }

  lemma SameMasksTwice(c: Mode, p: Mode, m: Mode)
    ensures (((m & !c) | p) & !c) | p == (m & !c) | p
  {
  }

  // ------------------------------------------------------------------ on a filesystem

  datatype ChmodStatus = Changed | NoTarget(error: Error) | BadMode

  /** The path is looked up before the specification is read. */
  function DoChmod(v: View, abs: string, spec: string): (View, ChmodStatus)
    requires [] in v
  {
    match Resolve(v, abs)
    case Blocked(e) => (v, NoTarget(e))
    case Found(p) =>
      match SpecMasks(spec)
      case None => (v, BadMode)
      case Some(masks) => (if p in v then v[p := v[p].(mode := masks.Apply(v[p].mode))] else v, Changed)
  }

  /** Changing modes disturbs neither the tree nor the quota. */
  lemma ChmodKeepsSound(fs: Fs, abs: string, spec: string)
    requires Sound(fs)
    ensures Sound(fs.(view := DoChmod(fs.view, abs, spec).0))
  {
    hide Resolve, SpecMasks, Masks.Apply, Utf8Size;
    var v, v' := fs.view, DoChmod(fs.view, abs, spec).0;
    assert Sizes(v') == Sizes(v);
    forall p | p in v' ensures HeldByDirectory(v', p) {
      assert HeldByDirectory(v, p);
    }
  }

  /** A missing path is reported first, then a malformed mode; otherwise one mode changes and nothing else. */
  lemma DoChmodExactly(v: View, abs: string, spec: string, other: Path)
    requires Tree(v)
    ensures var p := Components(abs); var (after, status) := DoChmod(v, abs, spec);
      && (p !in v ==> after == v && status.NoTarget? && Resolve(v, abs) == Blocked(status.error))
      && (p in v && SpecMasks(spec).None? ==> after == v && status == BadMode)
      && (p in v && SpecMasks(spec).Some? ==>
            && status == Changed && after.Keys == v.Keys && (other in v && other != p ==> after[other] == v[other])
            && after[p] == match v[p]
                 case FileEntry(content, mode, device, dynamic) => FileEntry(content, SpecMasks(spec).value.Apply(mode), device, dynamic)
                 case DirEntry(mode) => DirEntry(SpecMasks(spec).value.Apply(mode)))
  {
    hide Components, SpecMasks, Masks.Apply;
    ResolveFindsExactly(v, abs);
  }

  // ------------------------------------------------------------------ lemmas for the code

  lemma OctalReplaces(current: Mode, value: Mode)
    ensures Masks(0xFFFF, value & MODE_BITS).Apply(current) == value & MODE_BITS
  {
  }

  lemma NarrowingKeepsBits(current: Mode)
    ensures NARROWING.Apply(current) == current & MODE_BITS
  {
  }

  lemma BitCases(current: Mode, delta: Mode)
    ensures Masks(0, delta).Apply(current) == current | delta
    ensures Masks(delta, 0).Apply(current) == current & !delta
  {
  }

  lemma OrAssociates(a: Mode, b: Mode, c: Mode)
    ensures (a | b) | c == a | (b | c)
  {
  }

  lemma ThenApplies(a: Masks, b: Masks, m: Mode)
    ensures a.Then(b).Apply(m) == b.Apply(a.Apply(m))
  {
    OneThenAnother(a.clear, a.put, b.clear, b.put, m);
  }

  lemma OneThenAnother(c: Mode, p: Mode, c': Mode, p': Mode, m: Mode)
    ensures (m & !(c | c')) | ((p & !c') | p') == (((m & !c) | p) & !c') | p'
  {
  }

  lemma {:induction false} MalformedStays(clauses: seq<string>, n: nat)
    requires n <= |clauses| && ClausesMasks(clauses[..n]).None?
    ensures ClausesMasks(clauses).None?
    decreases |clauses|
  {
    if n == |clauses| {
      assert clauses[..n] == clauses;
    } else {
      var shorter := clauses[..|clauses| - 1];
      assert shorter[..n] == clauses[..n];
      MalformedStays(shorter, n);
    }
  }

  lemma {:induction false} SubjectsAreKnown(clause: string, n: nat)
    requires n <= |clause| && forall i :: 0 <= i < n ==> IsWho(clause[i])
    ensures Subjects(clause[..n]) <= {'u', 'g', 'o'}
  {
    if !(n == 0 || 'a' in clause[..n]) {
      forall c | c in clause[..n] ensures c in {'u', 'g', 'o'} {
        assert IsWho(c);
      }
    }
  }

  lemma DeltaGrows(visited: set<char>, subject: char, perms: string)
    requires subject in {'u', 'g', 'o'} && subject !in visited
    ensures Delta(visited + {subject}, perms) == Delta(visited, perms) | PermBits(subject, perms)
  {
    hide Part, OrThree;
    PartGrows(visited, subject, 'u', perms);
    PartGrows(visited, subject, 'g', perms);
    PartGrows(visited, subject, 'o', perms);
    ThreeParts(Part(visited, 'u', perms), Part(visited, 'g', perms), Part(visited, 'o', perms), PermBits(subject, perms));
  }

  lemma PartGrows(visited: set<char>, subject: char, c: char, perms: string)
    requires subject !in visited
    ensures Part(visited + {subject}, c, perms) == if c == subject then PermBits(subject, perms) else Part(visited, c, perms)
    ensures c == subject ==> Part(visited, c, perms) == 0
  {
  }

  lemma ThreeParts(u: Mode, g: Mode, o: Mode, d: Mode)
    ensures u == 0 ==> OrThree(d, g, o) == OrThree(u, g, o) | d
    ensures g == 0 ==> OrThree(u, d, o) == OrThree(u, g, o) | d
    ensures o == 0 ==> OrThree(u, g, d) == OrThree(u, g, o) | d
  {
  }
}
