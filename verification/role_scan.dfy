/** memx_init_chip_info: finding the groups of chained chips from the role of each chip. */
module RoleScan {

  const CHIPS := 16

  /** Any value without a case of its own counts as unconfigured. */
  datatype Role = Single | First | Middle | Last | Unconfigured

  datatype Group = Group(input: nat, output: nat)

  // ----- one chip after the other

  datatype Scan = Scan(groups: seq<Group>, group: nat, configured: nat)

  function Next(s: Scan, chip: nat, role: Role): (r: Scan)
    requires s.group < |s.groups|
    ensures |r.groups| == |s.groups| && s.group <= r.group <= s.group + 1
  {
    match role
    case Single => Scan(s.groups[s.group := Group(chip, chip)], s.group + 1, s.configured + 1)
    case First => Scan(s.groups[s.group := s.groups[s.group].(input := chip)], s.group, s.configured + 1)
    case Last => Scan(s.groups[s.group := s.groups[s.group].(output := chip)], s.group + 1, s.configured + 1)
    case Middle => s.(configured := s.configured + 1)
    case Unconfigured => s
  }

  /** After the first n chips. The group index never gets ahead of the chips scanned. */
  function ScanTo(groups: seq<Group>, roles: seq<Role>, n: nat): (s: Scan)
    requires n <= |roles| <= |groups|
    ensures |s.groups| == |groups| && s.group <= n
  {
    if n == 0 then Scan(groups, 0, 0) else Next(ScanTo(groups, roles, n - 1), n - 1, roles[n - 1])
  }

  class ChipInfo {
    const roles: seq<Role>
    const groups: array<Group>
    var groupCount: nat
    var configuredCount: nat

    predicate Valid()
      reads this
    {
      |roles| == groups.Length == CHIPS
    }

    constructor (roles: seq<Role>)
      requires |roles| == CHIPS
      ensures Valid() && fresh(groups) && this.roles == roles
    {
      this.roles := roles;
      groups := new Group[CHIPS](_ => Group(0, 0));
      groupCount, configuredCount := 0, 0;
    }

    /** The comment in the source says that the first unconfigured chip ends the scan; the break
        there only ends the switch, so all chips are looked at. */
    method Init()
      requires Valid()
      modifies this, groups
      ensures Scan(groups[..], groupCount, configuredCount) == ScanTo(old(groups[..]), roles, CHIPS)
    {
      var group, configured := 0, 0;
      for chip := 0 to CHIPS
        invariant Scan(groups[..], group, configured) == ScanTo(old(groups[..]), roles, chip)
        invariant group <= chip
      {
        match roles[chip] {
          case Single =>
            groups[group] := groups[group].(input := chip);
            groups[group] := groups[group].(output := chip);
            group, configured := group + 1, configured + 1;
          case First =>
            groups[group] := groups[group].(input := chip);
            configured := configured + 1;
          case Last =>
            groups[group] := groups[group].(output := chip);
            group, configured := group + 1, configured + 1;
          case Middle => configured := configured + 1;
          case Unconfigured =>
        }
      }
      groupCount := group;
      configuredCount := configured;
    }
  }

  // ----- boards as they are meant to be

  /** A stretch of a board: an unconfigured chip, a chip on its own, or a chain of two or more. */
  datatype Piece = Gap | Solo | Chain(middles: nat)

  function Middles(n: nat): (r: seq<Role>)
    ensures |r| == n && forall i :: 0 <= i < n ==> r[i] == Middle
  {
    seq(n, _ => Middle)
  }

  function RolesOfPiece(p: Piece): seq<Role> {
    match p
    case Gap => [Unconfigured]
    case Solo => [Single]
    case Chain(n) => [First] + Middles(n) + [Last]
  }

  function RolesOf(pieces: seq<Piece>): seq<Role> {
    if pieces == [] then [] else RolesOf(pieces[..|pieces| - 1]) + RolesOfPiece(pieces[|pieces| - 1])
  }

  /** The first and last chip of every block, in board order. */
  function BlocksOf(pieces: seq<Piece>): seq<Group> {
    if pieces == [] then []
    else
      var before, at := BlocksOf(pieces[..|pieces| - 1]), |RolesOf(pieces[..|pieces| - 1])|;
      match pieces[|pieces| - 1]
      case Gap => before
      case Solo => before + [Group(at, at)]
      case Chain(n) => before + [Group(at, at + n + 1)]
  }

  function SizeSum(groups: seq<Group>): int {
    if groups == [] then 0 else SizeSum(groups[..|groups| - 1]) + groups[|groups| - 1].output - groups[|groups| - 1].input + 1
  }

  function Configured(roles: seq<Role>): nat {
    if roles == [] then 0 else Configured(roles[..|roles| - 1]) + (if roles[|roles| - 1] == Unconfigured then 0 else 1)
  }

  /** For every role sequence, meaningful or not, the count is the number of configured chips. */
  lemma {:induction false} CountsConfigured(groups: seq<Group>, roles: seq<Role>, n: nat)
    requires n <= |roles| <= |groups|
    ensures ScanTo(groups, roles, n).configured == Configured(roles[..n])
    decreases n
  {
    if n > 0 {
      CountsConfigured(groups, roles, n - 1);
      assert roles[..n][..n - 1] == roles[..n - 1];
    }
  }

  /** Chips in the middle of a chain change nothing but the count. */
  lemma {:induction false} ScanMiddles(groups: seq<Group>, roles: seq<Role>, at: nat, n: nat)
    requires at + n <= |roles| <= |groups|
    requires forall i :: at <= i < at + n ==> roles[i] == Middle
    ensures ScanTo(groups, roles, at + n).groups == ScanTo(groups, roles, at).groups
    ensures ScanTo(groups, roles, at + n).group == ScanTo(groups, roles, at).group
    decreases n
  {
    if n > 0 {
      ScanMiddles(groups, roles, at, n - 1);
    }
  }

  /** On a board made of blocks and gaps the groups found are the blocks, in order. */
  lemma {:induction false} FindsBlocks(groups: seq<Group>, roles: seq<Role>, pieces: seq<Piece>)
    requires |roles| <= |groups| && RolesOf(pieces) <= roles
    ensures var s, blocks := ScanTo(groups, roles, |RolesOf(pieces)|), BlocksOf(pieces);
      s.group == |blocks| && s.groups[..s.group] == blocks
    decreases |pieces|
  {
    hide ScanTo, RolesOfPiece;
    if pieces == [] {
      NothingScanned(groups, roles);
    } else {
      var before, p := pieces[..|pieces| - 1], pieces[|pieces| - 1];
      var at := |RolesOf(before)|;
      PrefixParts(roles, RolesOf(before), RolesOfPiece(p));
      FindsBlocks(groups, roles, before);
      PieceScanned(groups, roles, at, p);
    }
  }

  lemma NothingScanned(groups: seq<Group>, roles: seq<Role>)
    requires |roles| <= |groups|
    ensures ScanTo(groups, roles, 0).group == 0
  {
  }

  lemma PrefixParts(roles: seq<Role>, a: seq<Role>, b: seq<Role>)
    requires a + b <= roles
    ensures a <= roles && roles[|a|..|a| + |b|] == b
  {
    assert roles[..|a + b|] == a + b;
    assert roles[..|a|] == (a + b)[..|a|] == a;
    assert roles[|a|..|a| + |b|] == (a + b)[|a|..];
  }

  lemma ChainScanned(groups: seq<Group>, roles: seq<Role>, at: nat, n: nat)
    requires at + n + 2 <= |roles| <= |groups|
    requires roles[at] == First && roles[at + n + 1] == Last && forall i :: at + 1 <= i < at + 1 + n ==> roles[i] == Middle
    ensures var s, r := ScanTo(groups, roles, at), ScanTo(groups, roles, at + n + 2);
      r.group == s.group + 1 && r.groups[..r.group] == s.groups[..s.group] + [Group(at, at + n + 1)]
  {
    ScanMiddles(groups, roles, at + 1, n);
    hide ScanTo;
    var s, s1 := ScanTo(groups, roles, at), ScanTo(groups, roles, at + 1);
    var s2, r := ScanTo(groups, roles, at + 1 + n), ScanTo(groups, roles, at + n + 2);
    OneChip(groups, roles, at);
    OneChip(groups, roles, at + n + 1);
    assert r.groups[s.group] == Group(at, at + n + 1);
  }

  lemma OneChip(groups: seq<Group>, roles: seq<Role>, chip: nat)
    requires chip < |roles| <= |groups|
    ensures ScanTo(groups, roles, chip + 1) == Next(ScanTo(groups, roles, chip), chip, roles[chip])
  {
  }

  lemma PieceScanned(groups: seq<Group>, roles: seq<Role>, at: nat, p: Piece)
    requires at + |RolesOfPiece(p)| <= |roles| <= |groups|
    requires roles[at..at + |RolesOfPiece(p)|] == RolesOfPiece(p)
    ensures var s, r := ScanTo(groups, roles, at), ScanTo(groups, roles, at + |RolesOfPiece(p)|);
      match p
      case Gap => r.group == s.group && r.groups == s.groups
      case Solo => r.group == s.group + 1 && r.groups[..r.group] == s.groups[..s.group] + [Group(at, at)]
      case Chain(n) => r.group == s.group + 1 && r.groups[..r.group] == s.groups[..s.group] + [Group(at, at + n + 1)]
  {
    var part := roles[at..at + |RolesOfPiece(p)|];
    match p
    case Gap => assert roles[at] == part[0];
    case Solo => assert roles[at] == part[0];
    case Chain(n) =>
      assert roles[at] == part[0] == First && roles[at + n + 1] == part[n + 1] == Last;
      forall i | at + 1 <= i < at + 1 + n
        ensures roles[i] == Middle
      {
        assert roles[i] == part[i - at];
      }
      ChainScanned(groups, roles, at, n);
  }

  /** The sizes of the blocks add up to the configured chips. */
  lemma {:induction false} SizesAddUp(pieces: seq<Piece>)
    ensures SizeSum(BlocksOf(pieces)) == Configured(RolesOf(pieces))
    decreases |pieces|
  {
    if pieces != [] {
      var before := pieces[..|pieces| - 1];
      SizesAddUp(before);
      ConfiguredAppend(RolesOf(before), RolesOfPiece(pieces[|pieces| - 1]));
      ConfiguredPiece(pieces[|pieces| - 1]);
    }
  }

  lemma {:induction false} ConfiguredAppend(a: seq<Role>, b: seq<Role>)
    ensures Configured(a + b) == Configured(a) + Configured(b)
    decreases |b|
  {
    if b == [] {
      assert a + b == a;
    } else {
      assert (a + b)[..|a + b| - 1] == a + b[..|b| - 1];
      ConfiguredAppend(a, b[..|b| - 1]);
    }
  }

  lemma {:induction false} ConfiguredMiddles(n: nat)
    ensures Configured(Middles(n)) == n
  {
    if n > 0 {
      ConfiguredMiddles(n - 1);
      assert Middles(n)[..n - 1] == Middles(n - 1);
    }
  }

  lemma ConfiguredPiece(p: Piece)
    ensures Configured(RolesOfPiece(p)) == match p case Gap => 0 case Solo => 1 case Chain(n) => n + 2
  {
    match p
    case Gap =>
    case Solo =>
    case Chain(n) =>
      ConfiguredMiddles(n);
      ConfiguredAppend([First], Middles(n));
      ConfiguredAppend([First] + Middles(n), [Last]);
  }

  /** The whole of a board made of blocks and gaps: the groups are the blocks in order, and their
      sizes add up to the configured chips counted. */
  lemma {:induction false} BoardScanned(groups: seq<Group>, pieces: seq<Piece>)
    requires |RolesOf(pieces)| <= |groups|
    ensures var s := ScanTo(groups, RolesOf(pieces), |RolesOf(pieces)|);
      && s.groups[..s.group] == BlocksOf(pieces)
      && s.configured == SizeSum(s.groups[..s.group])
  {
    var roles := RolesOf(pieces);
    FindsBlocks(groups, roles, pieces);
    CountsConfigured(groups, roles, |roles|);
    assert roles[..|roles|] == roles;
    SizesAddUp(pieces);
  }

  // ----- ending the scan at the first unconfigured chip

  /** From one chip to a later one the count grows exactly when a configured chip is met, and
      otherwise nothing changes. */
  lemma {:induction false} ScanOn(groups: seq<Group>, roles: seq<Role>, k: nat, n: nat)
    requires k <= n <= |roles| <= |groups|
    ensures var s, r := ScanTo(groups, roles, k), ScanTo(groups, roles, n);
      if forall i :: k <= i < n ==> roles[i] == Unconfigured then r == s else r.configured > s.configured
    decreases n
  {
    if k < n {
      ScanOn(groups, roles, k, n - 1);
      hide ScanTo;
      OneChip(groups, roles, n - 1);
    }
  }

  /** What the comment in the source supposes, that the scan could end at the first unconfigured chip
      k, holds if and only if no chip behind it is configured. */
  lemma EndsAtUnconfigured(groups: seq<Group>, roles: seq<Role>, k: nat)
    requires k <= |roles| <= |groups|
    requires k < |roles| ==> roles[k] == Unconfigured
    requires forall i :: 0 <= i < k ==> roles[i] != Unconfigured
    ensures ScanTo(groups, roles, |roles|) == ScanTo(groups, roles, k) <==> forall i :: k <= i < |roles| ==> roles[i] == Unconfigured
  {
    ScanOn(groups, roles, k, |roles|);
  }

  /** A board on which it does not hold: two single chips with a gap between them. */
  lemma GapInTheMiddle(groups: seq<Group>)
    requires |groups| == CHIPS
    ensures var roles := RolesOf([Solo, Gap, Solo]) + seq(13, _ => Unconfigured);
      |roles| == CHIPS && ScanTo(groups, roles, CHIPS) != ScanTo(groups, roles, 1)
  {
    var pieces := [Solo, Gap, Solo];
    assert pieces[..2] == [Solo, Gap] && pieces[..2][..1] == [Solo] && [Solo][..0] == [];
    assert RolesOf([Solo]) == [Single] && RolesOf([Solo, Gap]) == [Single, Unconfigured];
    assert RolesOf(pieces) == [Single, Unconfigured, Single];
    var roles := RolesOf(pieces) + seq(13, _ => Unconfigured);
    assert roles[2] == Single;
    EndsAtUnconfigured(groups, roles, 1);
  }
}
