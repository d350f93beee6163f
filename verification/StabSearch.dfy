/** stab_binsearch of kern/kdebug.c: binary search for one type of entry in a table that interleaves several. */
module StabSearch {
  import opened Layout

  datatype Stab = Stab(n_type: byte, n_value: uint32)

  /** The locals of the search; left and right are what region_left and region_right point to. */
  datatype Search = Search(l: int, r: int, left: int, right: int, addr: uint32, anyMatches: bool)

  predicate InTable(stabs: seq<Stab>, s: Search) {
    0 <= s.l <= s.r + 1 <= |stabs|
  }

  /** The last stab of the type in [l, m], l - 1 if there is none. */
  function Earlier(stabs: seq<Stab>, typ: byte, l: int, m: int): (i: int)
    requires 0 <= l <= m + 1 <= |stabs|
    ensures l - 1 <= i <= m && (i >= l ==> stabs[i].n_type == typ)
    ensures forall j :: i < j <= m ==> stabs[j].n_type != typ
    decreases m
  {
    if m < l || stabs[m].n_type == typ then m else Earlier(stabs, typ, l, m - 1)
  }

  /** addr++: addr is a pointer to uint32, so it moves by four. */
  function Next(addr: uint32): uint32 {
    if addr < 0xFFFF_FFFC then addr + 4 else addr + 4 - 0x1_0000_0000
  }

  /** One round of the search. */
  function Round(stabs: seq<Stab>, typ: byte, s: Search): (s': Search)
    requires InTable(stabs, s) && s.l <= s.r
    ensures InTable(stabs, s')
  {
    var true_m := (s.l + s.r) / 2;
    var m := Earlier(stabs, typ, s.l, true_m);
    if m < s.l then s.(l := true_m + 1)
    else if stabs[m].n_value < s.addr then s.(anyMatches := true, left := m, l := true_m + 1)
    else if stabs[m].n_value > s.addr then s.(anyMatches := true, right := m - 1, r := m - 1)
    else s.(anyMatches := true, left := m, l := m, addr := Next(s.addr))
  }

  /** The stab the next round compares is at addr: that round may leave l and r where they are. */
  predicate AtMatch(stabs: seq<Stab>, typ: byte, s: Search) {
    InTable(stabs, s) && s.l <= s.r
    && var m := Earlier(stabs, typ, s.l, (s.l + s.r) / 2);
       m >= s.l && stabs[m].n_value == s.addr
  }

  lemma RoundShrinks(stabs: seq<Stab>, typ: byte, s: Search)
    requires InTable(stabs, s) && s.l <= s.r
    ensures var s' := Round(stabs, typ, s);
      s'.r - s'.l < s.r - s.l || (s'.r - s'.l == s.r - s.l && AtMatch(stabs, typ, s) && !AtMatch(stabs, typ, s'))
  {
  }

  function Rounds(stabs: seq<Stab>, typ: byte, s: Search): (s': Search)
    requires InTable(stabs, s)
    ensures InTable(stabs, s') && s'.l > s'.r
    decreases s.r - s.l + 1, AtMatch(stabs, typ, s)
  {
    if s.l > s.r then s
    else
      RoundShrinks(stabs, typ, s);
      Rounds(stabs, typ, Round(stabs, typ, s))
  }

  /** The rounds up to the one that meets an exact match, or all of them. */
  function ToMatch(stabs: seq<Stab>, typ: byte, s: Search): (s': Search)
    requires InTable(stabs, s)
    ensures InTable(stabs, s') && s'.addr == s.addr && s.l <= s'.l && s'.r <= s.r
    decreases s.r - s.l + 1
  {
    if s.l > s.r || AtMatch(stabs, typ, s) then s
    else
      RoundShrinks(stabs, typ, s);
      ToMatch(stabs, typ, Round(stabs, typ, s))
  }

  lemma {:induction false} RoundsPastMatch(stabs: seq<Stab>, typ: byte, s: Search)
    requires InTable(stabs, s)
    ensures Rounds(stabs, typ, s) == Rounds(stabs, typ, ToMatch(stabs, typ, s))
    decreases s.r - s.l + 1
  {
    if s.l <= s.r && !AtMatch(stabs, typ, s) {
      RoundShrinks(stabs, typ, s);
      RoundsPastMatch(stabs, typ, Round(stabs, typ, s));
    }
  }

  /** Where the closing loop stops: at the last stab of the type in (left, right], or at left. */
  function Closing(stabs: seq<Stab>, typ: byte, left: int, right: int): (l: int)
    requires 0 <= left && right < |stabs|
    ensures left <= right ==> left <= l <= right && (l > left ==> stabs[l].n_type == typ)
    ensures left <= right ==> forall j :: l < j <= right ==> stabs[j].n_type != typ
    ensures left > right ==> l == right
    decreases right - left
  {
    if right > left && stabs[right].n_type != typ then Closing(stabs, typ, left, right - 1) else right
  }

  function Found(stabs: seq<Stab>, typ: byte, s: Search): (bounds: (int, int))
    requires 0 <= s.left && s.right < |stabs|
  {
    if s.anyMatches then (Closing(stabs, typ, s.left, s.right), s.right) else (s.left, s.left - 1)
  }

  function Start(left: int, right: int, addr: uint32): Search {
    Search(left, right, left, right, addr, false)
  }

  lemma {:induction false} RoundsKeepBounds(stabs: seq<Stab>, typ: byte, s: Search)
    requires InTable(stabs, s) && 0 <= s.left && s.right < |stabs|
    ensures var e := Rounds(stabs, typ, s); 0 <= e.left && e.right < |stabs|
    decreases s.r - s.l + 1, AtMatch(stabs, typ, s)
  {
    if s.l <= s.r {
      RoundShrinks(stabs, typ, s);
      RoundsKeepBounds(stabs, typ, Round(stabs, typ, s));
    }
  }

  /** The outer loop. */
  method Narrow(stabs: seq<Stab>, typ: byte, start: Search) returns (s: Search)
    requires InTable(stabs, start)
    ensures s == Rounds(stabs, typ, start)
  {
    s := start;
    while s.l <= s.r
      invariant InTable(stabs, s) && Rounds(stabs, typ, s) == Rounds(stabs, typ, start)
      decreases s.r - s.l + 1, AtMatch(stabs, typ, s)
    {
      RoundShrinks(stabs, typ, s);
      s := Inspect(stabs, typ, s);
    }
  }

  /** The body of the outer loop. */
  method Inspect(stabs: seq<Stab>, typ: byte, was: Search) returns (s: Search)
    requires InTable(stabs, was) && was.l <= was.r
    ensures s == Round(stabs, typ, was)
  {
    s := was;
    var true_m := (s.l + s.r) / 2;
    var m := FindEarlier(stabs, typ, s.l, true_m);
    if m < s.l {
      s := s.(l := true_m + 1);
    } else {
      s := s.(anyMatches := true);
      if stabs[m].n_value < s.addr {
        s := s.(left := m, l := true_m + 1);
      } else if stabs[m].n_value > s.addr {
        s := s.(right := m - 1, r := m - 1);
      } else {
        s := s.(left := m, l := m, addr := Next(s.addr));
      }
    }
  }

  /** The inner loop: the earliest stab of the right type, seen from the middle. */
  method FindEarlier(stabs: seq<Stab>, typ: byte, l: int, true_m: int) returns (m: int)
    requires 0 <= l <= true_m + 1 <= |stabs|
    ensures m == Earlier(stabs, typ, l, true_m)
  {
    m := true_m;
    while m >= l && stabs[m].n_type != typ
      invariant l - 1 <= m <= true_m && Earlier(stabs, typ, l, m) == Earlier(stabs, typ, l, true_m)
    {
      m := m - 1;
    }
  }

  /** The closing loop. */
  method Close(stabs: seq<Stab>, typ: byte, left: int, right: int) returns (l: int)
    requires 0 <= left && right < |stabs|
    ensures l == Closing(stabs, typ, left, right)
  {
    l := right;
    while l > left && stabs[l].n_type != typ
      invariant l <= right && Closing(stabs, typ, left, l) == Closing(stabs, typ, left, right)
    {
      l := l - 1;
    }
  }

  // ---- what the search finds ----

  predicate IsStab(stabs: seq<Stab>, typ: byte, lo: int, hi: int, i: int) {
    0 <= lo <= i <= hi < |stabs| && stabs[i].n_type == typ
  }

  /** Stabs of the type come in strictly increasing order of address. */
  ghost predicate Increasing(stabs: seq<Stab>, typ: byte, lo: int, hi: int) {
    forall i, j :: IsStab(stabs, typ, lo, hi, i) && IsStab(stabs, typ, lo, hi, j) && i < j ==>
      stabs[i].n_value < stabs[j].n_value
  }

  /** A stab exactly at addr has no other in the four bytes above it, and addr + 4 does not wrap. */
  ghost predicate Clear(stabs: seq<Stab>, typ: byte, lo: int, hi: int, addr: uint32) {
    (exists i :: IsStab(stabs, typ, lo, hi, i) && stabs[i].n_value == addr) ==>
      addr < 0xFFFF_FFFC && forall j :: IsStab(stabs, typ, lo, hi, j) ==> !(addr < stabs[j].n_value <= addr + 4)
  }

  /** No stab of the type up to r lies in the four bytes above addr. */
  ghost predicate ClearTo(stabs: seq<Stab>, typ: byte, lo: int, hi: int, addr: uint32, r: int) {
    forall j :: IsStab(stabs, typ, lo, hi, j) && j <= r ==> !(addr < stabs[j].n_value <= addr + 4)
  }

  /**
   * When the search meets a stab exactly at addr, the ones it has not ruled out by then leave those four bytes free:
   * the next stab is further up, or was compared before.
   */
  ghost predicate Undisturbed(stabs: seq<Stab>, typ: byte, lo: int, hi: int, addr: uint32, s: Search)
    requires InTable(stabs, s)
  {
    if s.addr == addr then
      var e := ToMatch(stabs, typ, s);
      AtMatch(stabs, typ, e) ==> addr < 0xFFFF_FFFC && ClearTo(stabs, typ, lo, hi, addr, e.r)
    else
      ClearTo(stabs, typ, lo, hi, addr, s.r)
  }

  lemma ClearIsUndisturbed(stabs: seq<Stab>, typ: byte, lo: int, hi: int, addr: uint32)
    requires 0 <= lo <= hi + 1 <= |stabs| && Clear(stabs, typ, lo, hi, addr)
    ensures Undisturbed(stabs, typ, lo, hi, addr, Start(lo, hi, addr))
  {
    var e := ToMatch(stabs, typ, Start(lo, hi, addr));
    if AtMatch(stabs, typ, e) {
      assert IsStab(stabs, typ, lo, hi, Earlier(stabs, typ, e.l, (e.l + e.r) / 2));
    }
  }

  ghost predicate AtOrBelow(stabs: seq<Stab>, typ: byte, lo: int, hi: int, addr: uint32, i: int) {
    IsStab(stabs, typ, lo, hi, i) && stabs[i].n_value <= addr
  }

  /** Every stab of the type before l is at or below addr, and left is the last of them. */
  ghost predicate Below(stabs: seq<Stab>, typ: byte, lo: int, hi: int, addr: uint32, s: Search) {
    forall i :: IsStab(stabs, typ, lo, hi, i) && i < s.l ==>
      i <= s.left && stabs[i].n_value <= addr && AtOrBelow(stabs, typ, lo, hi, addr, s.left)
  }

  /** Every stab of the type past r is above addr, and unless r is the region's end r + 1 is the first of them. */
  ghost predicate Above(stabs: seq<Stab>, typ: byte, lo: int, hi: int, addr: uint32, s: Search) {
    && (forall i :: IsStab(stabs, typ, lo, hi, i) && i > s.r ==> stabs[i].n_value > addr)
    && (s.r < hi ==> IsStab(stabs, typ, lo, hi, s.r + 1))
  }

  /** What the rounds keep, for a search for addr that started with the region [lo, hi]. */
  ghost predicate Searching(stabs: seq<Stab>, typ: byte, lo: int, hi: int, addr: uint32, s: Search) {
    && 0 <= lo <= s.l && s.right == s.r <= hi < |stabs| && InTable(stabs, s)
    && lo <= s.left && (s.left == lo || (s.left <= s.l && AtOrBelow(stabs, typ, lo, hi, addr, s.left)))
    && (s.addr == addr || (s.addr == addr + 4 && IsStab(stabs, typ, lo, hi, s.left) && stabs[s.left].n_value == addr))
    && Below(stabs, typ, lo, hi, addr, s) && Above(stabs, typ, lo, hi, addr, s)
    && (if s.anyMatches then exists i :: IsStab(stabs, typ, lo, hi, i)
        else s.r == hi && s.left == lo && forall i :: IsStab(stabs, typ, lo, hi, i) ==> i >= s.l)
  }

  lemma NoneHigher(stabs: seq<Stab>, typ: byte, lo: int, hi: int, m: int)
    requires Increasing(stabs, typ, lo, hi) && 0 <= lo <= m <= hi < |stabs| && stabs[m].n_type == typ
    ensures IsStab(stabs, typ, lo, hi, m)
    ensures forall i :: IsStab(stabs, typ, lo, hi, i) && i <= m ==> stabs[i].n_value <= stabs[m].n_value
  {
  }

  lemma RoundKeepsBelow(stabs: seq<Stab>, typ: byte, lo: int, hi: int, addr: uint32, s: Search)
    requires Increasing(stabs, typ, lo, hi) && (s.addr != addr ==> ClearTo(stabs, typ, lo, hi, addr, s.r))
    requires Searching(stabs, typ, lo, hi, addr, s) && s.l <= s.r
    ensures Below(stabs, typ, lo, hi, addr, Round(stabs, typ, s))
  {
    hide Above, Increasing;
    var m, e := Earlier(stabs, typ, s.l, (s.l + s.r) / 2), Round(stabs, typ, s);
    if m >= s.l && stabs[m].n_value <= s.addr {
      NoneHigher(stabs, typ, lo, hi, m);
      assert AtOrBelow(stabs, typ, lo, hi, addr, m) && e.left == m;
      forall i | IsStab(stabs, typ, lo, hi, i) && i < e.l ensures i <= m && stabs[i].n_value <= addr {
        assert i <= (s.l + s.r) / 2;
      }
    } else {
      assert e.left == s.left;
      forall i | IsStab(stabs, typ, lo, hi, i) && i < e.l ensures i < s.l {
      }
    }
  }

  lemma RoundKeepsUndisturbed(stabs: seq<Stab>, typ: byte, lo: int, hi: int, addr: uint32, s: Search)
    requires Searching(stabs, typ, lo, hi, addr, s) && s.l <= s.r && Undisturbed(stabs, typ, lo, hi, addr, s)
    ensures Undisturbed(stabs, typ, lo, hi, addr, Round(stabs, typ, s))
  {
    hide Above, Below, ToMatch, ClearTo, Round, AtMatch;
    BeforeMatch(stabs, typ, s);
    AfterMatch(stabs, typ, lo, hi, addr, s);
  }

  lemma BeforeMatch(stabs: seq<Stab>, typ: byte, s: Search)
    requires InTable(stabs, s) && s.l <= s.r
    ensures Round(stabs, typ, s).r <= s.r
    ensures AtMatch(stabs, typ, s) ==> ToMatch(stabs, typ, s) == s && Round(stabs, typ, s).addr == Next(s.addr)
    ensures !AtMatch(stabs, typ, s) ==>
      ToMatch(stabs, typ, s) == ToMatch(stabs, typ, Round(stabs, typ, s)) && Round(stabs, typ, s).addr == s.addr
  {
    RoundShrinks(stabs, typ, s);
  }

  lemma AfterMatch(stabs: seq<Stab>, typ: byte, lo: int, hi: int, addr: uint32, s: Search)
    requires InTable(stabs, s) && s.l <= s.r && 0 <= lo <= s.l && s.r <= hi < |stabs|
    ensures forall r :: ClearTo(stabs, typ, lo, hi, addr, s.r) && r <= s.r ==> ClearTo(stabs, typ, lo, hi, addr, r)
    ensures s.addr == addr + 4 && ClearTo(stabs, typ, lo, hi, addr, s.r) ==> !AtMatch(stabs, typ, s)
  {
    if AtMatch(stabs, typ, s) {
      assert IsStab(stabs, typ, lo, hi, Earlier(stabs, typ, s.l, (s.l + s.r) / 2));
    }
  }

  lemma RoundKeepsAbove(stabs: seq<Stab>, typ: byte, lo: int, hi: int, addr: uint32, s: Search)
    requires Increasing(stabs, typ, lo, hi)
    requires Searching(stabs, typ, lo, hi, addr, s) && s.l <= s.r
    ensures Above(stabs, typ, lo, hi, addr, Round(stabs, typ, s))
  {
    hide Below;
    var m := Earlier(stabs, typ, s.l, (s.l + s.r) / 2);
    if m >= s.l {
      assert IsStab(stabs, typ, lo, hi, m);
    }
  }

  /** An exact match is met only once, with addr itself. */
  lemma MatchesOnce(stabs: seq<Stab>, typ: byte, lo: int, hi: int, addr: uint32, s: Search)
    requires Searching(stabs, typ, lo, hi, addr, s) && s.l <= s.r && Undisturbed(stabs, typ, lo, hi, addr, s)
    ensures AtMatch(stabs, typ, s) ==> s.addr == addr < 0xFFFF_FFFC
    ensures s.addr != addr ==> ClearTo(stabs, typ, lo, hi, addr, s.r)
  {
    hide Above, Below, ToMatch, ClearTo, Round, AtMatch;
    BeforeMatch(stabs, typ, s);
    AfterMatch(stabs, typ, lo, hi, addr, s);
  }

  lemma RoundKeepsSearching(stabs: seq<Stab>, typ: byte, lo: int, hi: int, addr: uint32, s: Search)
    requires Increasing(stabs, typ, lo, hi)
    requires Searching(stabs, typ, lo, hi, addr, s) && s.l <= s.r && Undisturbed(stabs, typ, lo, hi, addr, s)
    ensures Searching(stabs, typ, lo, hi, addr, Round(stabs, typ, s))
  {
    MatchesOnce(stabs, typ, lo, hi, addr, s);
    hide *;
    RoundKeepsBelow(stabs, typ, lo, hi, addr, s);
    RoundKeepsAbove(stabs, typ, lo, hi, addr, s);
    StabFound(stabs, typ, lo, hi, addr, s);
  }

  lemma StabFound(stabs: seq<Stab>, typ: byte, lo: int, hi: int, addr: uint32, s: Search)
    requires Increasing(stabs, typ, lo, hi)
    requires Searching(stabs, typ, lo, hi, addr, s) && s.l <= s.r && (AtMatch(stabs, typ, s) ==> s.addr == addr < 0xFFFF_FFFC)
    requires Below(stabs, typ, lo, hi, addr, Round(stabs, typ, s)) && Above(stabs, typ, lo, hi, addr, Round(stabs, typ, s))
    ensures Searching(stabs, typ, lo, hi, addr, Round(stabs, typ, s))
  {
    StabIsBelow(stabs, typ, lo, hi, addr, Round(stabs, typ, s));
    hide Below, Above;
    var m := Earlier(stabs, typ, s.l, (s.l + s.r) / 2);
    if m >= s.l {
      assert IsStab(stabs, typ, lo, hi, m);
    }
  }

  lemma StabIsBelow(stabs: seq<Stab>, typ: byte, lo: int, hi: int, addr: uint32, s: Search)
    requires Below(stabs, typ, lo, hi, addr, s)
    ensures forall i :: IsStab(stabs, typ, lo, hi, i) && i < s.l ==> stabs[i].n_value <= addr
  {
  }

  lemma {:induction false} RoundsKeepSearching(stabs: seq<Stab>, typ: byte, lo: int, hi: int, addr: uint32, s: Search)
    requires Increasing(stabs, typ, lo, hi) && InTable(stabs, s) && Undisturbed(stabs, typ, lo, hi, addr, s)
    requires Searching(stabs, typ, lo, hi, addr, s)
    ensures Searching(stabs, typ, lo, hi, addr, Rounds(stabs, typ, s))
    decreases s.r - s.l + 1, AtMatch(stabs, typ, s)
  {
    hide Searching, Increasing, Undisturbed;
    if s.l <= s.r {
      RoundShrinks(stabs, typ, s);
      RoundKeepsSearching(stabs, typ, lo, hi, addr, s);
      RoundKeepsUndisturbed(stabs, typ, lo, hi, addr, s);
      RoundsKeepSearching(stabs, typ, lo, hi, addr, Round(stabs, typ, s));
    }
  }

  /** i is the last stab of the type at or below addr. */
  ghost predicate Last(stabs: seq<Stab>, typ: byte, lo: int, hi: int, addr: uint32, i: int) {
    AtOrBelow(stabs, typ, lo, hi, addr, i) && forall j :: AtOrBelow(stabs, typ, lo, hi, addr, j) ==> j <= i
  }

  /** i is the first stab of the type above addr, one past the region if there is none. */
  ghost predicate FirstAbove(stabs: seq<Stab>, typ: byte, lo: int, hi: int, addr: uint32, i: int) {
    && (i == hi + 1 || (IsStab(stabs, typ, lo, hi, i) && stabs[i].n_value > addr))
    && forall j :: IsStab(stabs, typ, lo, hi, j) && stabs[j].n_value > addr ==> i <= j
  }

  /**
   * What the search should leave in region_left and region_right. A stab of the type at or below addr: left is the
   * last one and right the entry before the next one. Stabs of the type, but all above addr: right is the entry
   * before the first one, and left stays, so the region left is empty only if the first stab opens it. No stab of
   * the type at all: the empty region.
   */
  ghost predicate Answer(stabs: seq<Stab>, typ: byte, lo: int, hi: int, addr: uint32, left: int, right: int) {
    if exists i :: AtOrBelow(stabs, typ, lo, hi, addr, i) then
      Last(stabs, typ, lo, hi, addr, left) && FirstAbove(stabs, typ, lo, hi, addr, right + 1)
    else if exists i :: IsStab(stabs, typ, lo, hi, i) then
      FirstAbove(stabs, typ, lo, hi, addr, right + 1) && right < hi && left == if right < lo then right else lo
    else
      left == lo && right == lo - 1
  }

  lemma SearchEnds(stabs: seq<Stab>, typ: byte, lo: int, hi: int, addr: uint32, e: Search)
    requires Searching(stabs, typ, lo, hi, addr, e) && e.l > e.r
    ensures var (left, right) := Found(stabs, typ, e); Answer(stabs, typ, lo, hi, addr, left, right)
  {
    var (left, right) := Found(stabs, typ, e);
    if e.anyMatches && left > e.left {
      assert IsStab(stabs, typ, lo, hi, left);
    }
    if i :| IsStab(stabs, typ, lo, hi, i) {
      assert i <= e.r ==> AtOrBelow(stabs, typ, lo, hi, addr, i);
      assert FirstAbove(stabs, typ, lo, hi, addr, e.r + 1);
    }
  }

  /** BinSearch leaves the right answer in region_left and region_right. */
  lemma SearchFinds(stabs: seq<Stab>, typ: byte, lo: int, hi: int, addr: uint32)
    requires 0 <= lo <= hi + 1 <= |stabs|
    requires Increasing(stabs, typ, lo, hi) && Undisturbed(stabs, typ, lo, hi, addr, Start(lo, hi, addr))
    ensures var e := Rounds(stabs, typ, Start(lo, hi, addr));
      && 0 <= e.left && e.right < |stabs|
      && var (left, right) := Found(stabs, typ, e); Answer(stabs, typ, lo, hi, addr, left, right)
  {
    var s := Start(lo, hi, addr);
    assert Searching(stabs, typ, lo, hi, addr, s);
    hide Searching, Answer, Increasing, Undisturbed, Found;
    RoundsKeepSearching(stabs, typ, lo, hi, addr, s);
    RoundsKeepBounds(stabs, typ, s);
    SearchEnds(stabs, typ, lo, hi, addr, Rounds(stabs, typ, s));
  }

  // ---- when it does not ----

  /** Every stab of the type is so low that adding four to its address does not wrap. */
  ghost predicate NoWrap(stabs: seq<Stab>, typ: byte, lo: int, hi: int) {
    forall i :: IsStab(stabs, typ, lo, hi, i) ==> stabs[i].n_value < 0xFFFF_FFFC
  }

  /** The search has taken stab n for one at or below its address, and has it before it or behind it. */
  ghost predicate Misled(stabs: seq<Stab>, typ: byte, lo: int, hi: int, n: int, s: Search) {
    && InTable(stabs, s) && lo <= s.l && s.right == s.r <= hi && s.anyMatches && IsStab(stabs, typ, lo, hi, n)
    && if s.left < n then s.l <= n <= s.r && stabs[n].n_value <= s.addr
       else s.left <= s.l && s.left <= s.r && IsStab(stabs, typ, lo, hi, s.left) && stabs[s.left].n_value < s.addr
  }

  lemma RoundStaysMisled(stabs: seq<Stab>, typ: byte, lo: int, hi: int, n: int, s: Search)
    requires Increasing(stabs, typ, lo, hi) && NoWrap(stabs, typ, lo, hi)
    requires Misled(stabs, typ, lo, hi, n, s) && s.l <= s.r
    ensures Misled(stabs, typ, lo, hi, n, Round(stabs, typ, s))
  {
    var m := Earlier(stabs, typ, s.l, (s.l + s.r) / 2);
    if m >= s.l {
      assert IsStab(stabs, typ, lo, hi, m);
    }
  }

  lemma {:induction false} RoundsStayMisled(stabs: seq<Stab>, typ: byte, lo: int, hi: int, n: int, s: Search)
    requires Increasing(stabs, typ, lo, hi) && NoWrap(stabs, typ, lo, hi)
    requires InTable(stabs, s) && Misled(stabs, typ, lo, hi, n, s)
    ensures var e := Rounds(stabs, typ, s); Misled(stabs, typ, lo, hi, n, e) && n <= e.left
    decreases s.r - s.l + 1, AtMatch(stabs, typ, s)
  {
    hide Increasing, NoWrap;
    if s.l <= s.r {
      RoundShrinks(stabs, typ, s);
      RoundStaysMisled(stabs, typ, lo, hi, n, s);
      RoundsStayMisled(stabs, typ, lo, hi, n, Round(stabs, typ, s));
    }
  }

  lemma {:induction false} MatchKeepsRight(stabs: seq<Stab>, typ: byte, s: Search)
    requires InTable(stabs, s) && s.right == s.r
    ensures var e := ToMatch(stabs, typ, s); e.right == e.r
    decreases s.r - s.l + 1
  {
    if s.l <= s.r && !AtMatch(stabs, typ, s) {
      RoundShrinks(stabs, typ, s);
      MatchKeepsRight(stabs, typ, Round(stabs, typ, s));
    }
  }

  /** A stab in the four bytes above an exact match that is still in the region then is what the search ends at, or a later one. */
  lemma NearStabWins(stabs: seq<Stab>, typ: byte, lo: int, hi: int, addr: uint32, n: int)
    requires 0 <= lo <= hi + 1 <= |stabs| && Increasing(stabs, typ, lo, hi) && NoWrap(stabs, typ, lo, hi)
    requires var e := ToMatch(stabs, typ, Start(lo, hi, addr));
      AtMatch(stabs, typ, e) && IsStab(stabs, typ, lo, hi, n) && n <= e.r && addr < stabs[n].n_value <= addr + 4
    ensures var f := Rounds(stabs, typ, Start(lo, hi, addr));
      && 0 <= f.left && f.right < |stabs| && Found(stabs, typ, f).0 >= n
  {
    var s := Start(lo, hi, addr);
    var e := ToMatch(stabs, typ, s);
    var m := Earlier(stabs, typ, e.l, (e.l + e.r) / 2);
    MatchKeepsRight(stabs, typ, s);
    RoundsPastMatch(stabs, typ, s);
    RoundShrinks(stabs, typ, e);
    assert IsStab(stabs, typ, lo, hi, m);
    assert Misled(stabs, typ, lo, hi, n, Round(stabs, typ, e));
    RoundsStayMisled(stabs, typ, lo, hi, n, Round(stabs, typ, e));
    RoundsKeepBounds(stabs, typ, s);
  }

  /** Exactly when the answer is right, for increasing stabs whose addresses do not wrap. */
  lemma AnswersExactly(stabs: seq<Stab>, typ: byte, lo: int, hi: int, addr: uint32)
    requires 0 <= lo <= hi + 1 <= |stabs| && Increasing(stabs, typ, lo, hi) && NoWrap(stabs, typ, lo, hi)
    ensures var e := Rounds(stabs, typ, Start(lo, hi, addr));
      && 0 <= e.left && e.right < |stabs|
      && var (left, right) := Found(stabs, typ, e);
         Answer(stabs, typ, lo, hi, addr, left, right) <==> Undisturbed(stabs, typ, lo, hi, addr, Start(lo, hi, addr))
  {
    hide Rounds, Found, ToMatch, AtMatch;
    var s := Start(lo, hi, addr);
    RoundsKeepBounds(stabs, typ, s);
    if Undisturbed(stabs, typ, lo, hi, addr, s) {
      SearchFinds(stabs, typ, lo, hi, addr);
    } else {
      var e := ToMatch(stabs, typ, s);
      MatchIsStab(stabs, typ, lo, hi, e);
      var n :| IsStab(stabs, typ, lo, hi, n) && n <= e.r && addr < stabs[n].n_value <= addr + 4;
      NearStabWins(stabs, typ, lo, hi, addr, n);
    }
  }

  lemma MatchIsStab(stabs: seq<Stab>, typ: byte, lo: int, hi: int, e: Search)
    requires AtMatch(stabs, typ, e) && 0 <= lo <= e.l && e.r <= hi < |stabs|
    ensures exists m :: IsStab(stabs, typ, lo, hi, m) && stabs[m].n_value == e.addr
  {
    assert IsStab(stabs, typ, lo, hi, Earlier(stabs, typ, e.l, (e.l + e.r) / 2));
  }

  method BinSearch(stabs: seq<Stab>, regionLeft: int, regionRight: int, typ: byte, addr: uint32)
    returns (left: int, right: int)
    requires 0 <= regionLeft <= regionRight + 1 <= |stabs|
    ensures var e := Rounds(stabs, typ, Start(regionLeft, regionRight, addr));
      0 <= e.left && e.right < |stabs| && (left, right) == Found(stabs, typ, e)
    ensures Increasing(stabs, typ, regionLeft, regionRight) && Clear(stabs, typ, regionLeft, regionRight, addr) ==>
      Answer(stabs, typ, regionLeft, regionRight, addr, left, right)
    ensures Increasing(stabs, typ, regionLeft, regionRight) && NoWrap(stabs, typ, regionLeft, regionRight) ==>
      (Answer(stabs, typ, regionLeft, regionRight, addr, left, right)
       <==> Undisturbed(stabs, typ, regionLeft, regionRight, addr, Start(regionLeft, regionRight, addr)))
  {
    hide Increasing, Clear, Answer, NoWrap, Undisturbed, Rounds;
    RoundsKeepBounds(stabs, typ, Start(regionLeft, regionRight, addr));
    var s := Narrow(stabs, typ, Start(regionLeft, regionRight, addr));
    left, right := s.left, s.right;
    if !s.anyMatches {
      right := left - 1;
    } else {
      left := Close(stabs, typ, left, right);
    }
    if Increasing(stabs, typ, regionLeft, regionRight) && NoWrap(stabs, typ, regionLeft, regionRight) {
      AnswersExactly(stabs, typ, regionLeft, regionRight, addr);
    }
    if Increasing(stabs, typ, regionLeft, regionRight) && Clear(stabs, typ, regionLeft, regionRight, addr) {
      ClearIsUndisturbed(stabs, typ, regionLeft, regionRight, addr);
      SearchFinds(stabs, typ, regionLeft, regionRight, addr);
    }
  }

  /**
   * The four bytes matter: with functions at 100 and 102, a search for 100 moves on to 104 after the exact match
   * and so answers with the function at 102.
   */
  lemma NearbyStabMisleads(typ: byte)
    ensures var stabs := [Stab(typ, 100), Stab(typ, 102)];
      && Increasing(stabs, typ, 0, 1) && Last(stabs, typ, 0, 1, 100, 0)
      && var e := Rounds(stabs, typ, Start(0, 1, 100));
      && 0 <= e.left && e.right < 2 && Found(stabs, typ, e) == (1, 1)
  {
    var stabs := [Stab(typ, 100), Stab(typ, 102)];
    var s0 := Start(0, 1, 100);
    var s1 := Search(0, 1, 0, 1, 104, true);
    var s2 := Search(1, 1, 0, 1, 104, true);
    var s3 := Search(2, 1, 1, 1, 104, true);
    assert Round(stabs, typ, s0) == s1;
    assert Round(stabs, typ, s1) == s2;
    assert Round(stabs, typ, s2) == s3;
    assert Rounds(stabs, typ, s2) == s3;
    assert Rounds(stabs, typ, s1) == s3;
  }

  /** Yet not always: with one more function at 200 the search compares 102 before 100 and answers correctly. */
  lemma NearbyStabMayBeSkipped(typ: byte)
    ensures var stabs := [Stab(typ, 100), Stab(typ, 102), Stab(typ, 200)];
      && Increasing(stabs, typ, 0, 2) && !Clear(stabs, typ, 0, 2, 100)
      && var e := Rounds(stabs, typ, Start(0, 2, 100));
      && 0 <= e.left && e.right < 3 && Found(stabs, typ, e) == (0, 0) && Answer(stabs, typ, 0, 2, 100, 0, 0)
  {
    var stabs := [Stab(typ, 100), Stab(typ, 102), Stab(typ, 200)];
    var s1 := Search(0, 0, 0, 0, 100, true);
    var s2 := Search(0, 0, 0, 0, 104, true);
    var s3 := Search(1, 0, 0, 0, 104, true);
    assert Round(stabs, typ, Start(0, 2, 100)) == s1;
    assert Round(stabs, typ, s1) == s2;
    assert Round(stabs, typ, s2) == s3;
    assert Rounds(stabs, typ, s2) == s3;
    assert Rounds(stabs, typ, s1) == s3;
    assert IsStab(stabs, typ, 0, 2, 0) && IsStab(stabs, typ, 0, 2, 1);
  }
}
