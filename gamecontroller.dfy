/** The game controller's rule decisions: team clamping and names, the map
    rotation, team-balance admission, the win check, death scoring, warmup
    and the force-balance flag. */
module GameController {

  const TEAM_SPECTATORS: int := -1
  const TEAM_RED: int := 0
  const TEAM_BLUE: int := 1

  /** Weapon codes of deaths that are not caused by a weapon. */
  const WEAPON_GAME: int := -3
  const WEAPON_SELF: int := -2

  /** A map name is cut out into a 512-byte buffer, so at most 511 characters. */
  const MAP_NAME_CAP: nat := 511
  /** The starting value of the top-score scan. */
  const TOPSCORE_FLOOR: int := -9999
  /** Seconds before a self-killed player may respawn. */
  const SELF_KILL_RESPAWN_SECONDS: int := 3

  function Min(a: int, b: int): int { if a < b then a else b }

  // ---------------------------------------------------------------------
  // Teams

  /** A player's team is normalised: negative means spectators; in a team
      game the low bit picks red or blue; otherwise everybody plays team 0. */
  function ClampTeam(teamplay: bool, team: int): (r: int)
    ensures r == TEAM_SPECTATORS || r == TEAM_RED || r == TEAM_BLUE
    ensures r == TEAM_SPECTATORS <==> team < 0
    ensures !teamplay && team >= 0 ==> r == TEAM_RED
    ensures teamplay && team >= 0 ==> (team - r) % 2 == 0
  {
    if team < 0 then TEAM_SPECTATORS
    else if teamplay then team % 2
    else 0
  }

  /** Clamping is idempotent and keeps every team that is already valid. */
  lemma ClampTeamStable(teamplay: bool, team: int)
    ensures ClampTeam(teamplay, ClampTeam(teamplay, team)) == ClampTeam(teamplay, team)
    ensures teamplay && TEAM_SPECTATORS <= team <= TEAM_BLUE ==> ClampTeam(teamplay, team) == team
    ensures !teamplay && TEAM_SPECTATORS <= team <= 0 ==> ClampTeam(teamplay, team) == team
  {
  }

  /** The display name of a team. */
  function GetTeamName(teamplay: bool, team: int): string
  {
    if teamplay && team == TEAM_RED then "red team"
    else if teamplay && team == TEAM_BLUE then "blue team"
    else if !teamplay && team == 0 then "game"
    else "spectators"
  }

  /** After clamping, a team is named "spectators" exactly when it was
      negative, and the playing teams get distinct names. */
  lemma TeamNames(teamplay: bool, team: int)
    ensures GetTeamName(teamplay, ClampTeam(teamplay, team)) == "spectators" <==> team < 0
    ensures teamplay ==> GetTeamName(teamplay, TEAM_RED) != GetTeamName(teamplay, TEAM_BLUE)
  {
    assert "red team" != "spectators" by { assert "red team"[0] != "spectators"[0]; }
    assert "blue team" != "spectators" by { assert "blue team"[0] != "spectators"[0]; }
    assert "game" != "spectators" by { assert "game"[0] != "spectators"[0]; }
    assert "red team" != "blue team" by { assert "red team"[0] != "blue team"[0]; }
  }

  // ---------------------------------------------------------------------
  // Map rotation

  /** Separators of the map-rotation list. */
  predicate IsSeparator(c: char)
  {
    c == ';' || c == ' ' || c == ',' || c == '\t'
  }

  /** Letters, digits and the other characters of map file names never
      separate, so a rotation entry made of them is one word. */
  lemma MapNameCharsAreNotSeparators(c: char)
    requires 'a' <= c <= 'z' || 'A' <= c <= 'Z' || '0' <= c <= '9' || c == '_' || c == '-' || c == '.'
    ensures !IsSeparator(c)
  {
  }

  /** The end of the run of non-separators starting at p. */
  function WordEnd(s: string, p: nat): (e: nat)
    requires p <= |s|
    ensures p <= e <= |s|
    ensures forall j :: p <= j < e ==> !IsSeparator(s[j])
    ensures e < |s| ==> IsSeparator(s[e])
    decreases |s| - p
  {
    if p == |s| || IsSeparator(s[p]) then p else WordEnd(s, p + 1)
  }

  /** The end of the run of separators starting at p. */
  function SkipSeparators(s: string, p: nat): (e: nat)
    requires p <= |s|
    ensures p <= e <= |s|
    ensures forall j :: p <= j < e ==> IsSeparator(s[j])
    ensures e < |s| ==> !IsSeparator(s[e])
    decreases |s| - p
  {
    if p == |s| || !IsSeparator(s[p]) then p else SkipSeparators(s, p + 1)
  }

  /** The map scan accepts position p when the run of non-separators there
      has exactly the current map's length and spells it. */
  predicate MatchAt(r: string, cur: string, p: nat)
    requires p <= |r|
  {
    WordEnd(r, p) - p == |cur| && r[p..p + |cur|] == cur
  }

  /** The first position in [p, |r|) the scan accepts, or |r|. */
  function FindMatch(r: string, cur: string, p: nat): (q: nat)
    requires p <= |r|
    ensures p <= q <= |r|
    ensures q < |r| ==> MatchAt(r, cur, q)
    ensures forall j :: p <= j < q ==> !MatchAt(r, cur, j)
    decreases |r| - p
  {
    if p == |r| then p
    else if MatchAt(r, cur, p) then p
    else FindMatch(r, cur, p + 1)
  }

  /** Where the next map name starts: after the first accepted position
      and the separators following it; when that reaches the end of the
      list (or nothing was accepted) the rotation restarts at 0. */
  function NextStart(r: string, cur: string): (s: nat)
    ensures s < |r| || s == 0
  {
    var q := FindMatch(r, cur, 0);
    var e := if q < |r| then SkipSeparators(r, q + |cur|) else |r|;
    if e == |r| then 0 else e
  }

  /** The name cut out at s: up to the first separator or the end, capped
      at MAP_NAME_CAP characters. */
  function CutName(r: string, s: nat): string
    requires s <= |r|
  {
    r[s..Min(WordEnd(r, s), s + MAP_NAME_CAP)]
  }

  /** The map the rotation switches to from the current map cur. */
  function NextMapName(r: string, cur: string): string
  {
    CutName(r, NextStart(r, cur))
  }

  /** The name cut out at s is a piece of the rotation from s on that holds
      no separator and runs to a separator or the end of the list unless
      the cap cut it short. */
  lemma CutNameShape(r: string, s: nat)
    requires s <= |r|
    ensures var name := CutName(r, s);
      && |name| <= MAP_NAME_CAP
      && s + |name| <= |r| && name == r[s..s + |name|]
      && (forall i :: 0 <= i < |name| ==> !IsSeparator(name[i]))
      && (|name| < MAP_NAME_CAP ==> s + |name| == WordEnd(r, s))
      && (s < |r| && !IsSeparator(r[s]) ==> |name| > 0)
  {
  }

  /** The next map starts the list or follows a separator. */
  lemma NextStartFollowsSeparator(r: string, cur: string)
    ensures var s := NextStart(r, cur); s == 0 || IsSeparator(r[s - 1])
  {
    var q := FindMatch(r, cur, 0);
    var s := NextStart(r, cur);
    if s != 0 {
      var e := q + |cur|;
      assert WordEnd(r, q) == e;
      assert s == SkipSeparators(r, e) && s > e;
    }
  }

  /** The next map name is a piece of the rotation that starts the list or
      follows a separator, holds no separator, and runs to a separator or
      the end of the list unless the cap cut it short. */
  lemma NextMapNameShape(r: string, cur: string)
    ensures var name, s := NextMapName(r, cur), NextStart(r, cur);
      && |name| <= MAP_NAME_CAP
      && s + |name| <= |r| && name == r[s..s + |name|]
      && (forall i :: 0 <= i < |name| ==> !IsSeparator(name[i]))
      && (s == 0 || IsSeparator(r[s - 1]))
      && (|name| < MAP_NAME_CAP ==> s + |name| == |r| || IsSeparator(r[s + |name|]))
  {
    CutNameShape(r, NextStart(r, cur));
    NextStartFollowsSeparator(r, cur);
  }

  /** The rotation moves from a listed map to the one after it. */
  lemma RotationAdvances()
    ensures NextMapName("a b c", "a") == "b"
  {
    var r := "a b c";
    assert MatchAt(r, "a", 0);
    assert NextStart(r, "a") == 2;
  }

  /** After the last map the rotation wraps to the first. */
  lemma RotationWraps()
    ensures NextMapName("a b c", "c") == "a"
  {
    var r := "a b c";
    assert !MatchAt(r, "c", 0) && !MatchAt(r, "c", 1) && !MatchAt(r, "c", 2) && !MatchAt(r, "c", 3);
    assert MatchAt(r, "c", 4);
    assert NextStart(r, "c") == 0;
  }

  /** A current map missing from the list restarts the rotation. */
  lemma RotationRestartsOnUnknownMap()
    ensures NextMapName("a;b", "z") == "a"
  {
    var r := "a;b";
    assert !MatchAt(r, "z", 0) && !MatchAt(r, "z", 1) && !MatchAt(r, "z", 2);
    assert NextStart(r, "z") == 0;
  }

  // Corrected rotation (see the findings in the README): a match only
  // counts at the start of a word, and a wrap skips leading separators.

  /** p starts a word: a non-separator at the start or after a separator. */
  predicate WordStart(r: string, p: nat)
  {
    p < |r| && !IsSeparator(r[p]) && (p == 0 || IsSeparator(r[p - 1]))
  }

  /** The first word start in [p, |r|) that spells cur as a whole word, or |r|. */
  function FindWordMatch(r: string, cur: string, p: nat): (q: nat)
    requires p <= |r|
    ensures p <= q <= |r|
    ensures q < |r| ==> WordStart(r, q) && MatchAt(r, cur, q)
    ensures forall j :: p <= j < q ==> !(WordStart(r, j) && MatchAt(r, cur, j))
    decreases |r| - p
  {
    if p == |r| then p
    else if WordStart(r, p) && MatchAt(r, cur, p) then p
    else FindWordMatch(r, cur, p + 1)
  }

  function NextStartFixed(r: string, cur: string): (s: nat)
    ensures s <= |r|
  {
    var q := FindWordMatch(r, cur, 0);
    var e := if q < |r| then SkipSeparators(r, q + |cur|) else |r|;
    if e == |r| then SkipSeparators(r, 0) else e
  }

  function NextMapNameFixed(r: string, cur: string): string
  {
    CutName(r, NextStartFixed(r, cur))
  }

  /** Whenever the rotation names at least one map, the corrected rotation
      picks a non-empty whole word of it. */
  lemma NextMapNameFixedIsWord(r: string, cur: string)
    requires exists j :: 0 <= j < |r| && !IsSeparator(r[j])
    ensures var name, s := NextMapNameFixed(r, cur), NextStartFixed(r, cur);
      && WordStart(r, s)
      && 0 < |name| <= MAP_NAME_CAP
      && s + |name| <= |r| && name == r[s..s + |name|]
      && (forall i :: 0 <= i < |name| ==> !IsSeparator(name[i]))
      && (|name| < MAP_NAME_CAP ==> s + |name| == |r| || IsSeparator(r[s + |name|]))
  {
    NextStartFixedIsWordStart(r, cur);
    CutNameShape(r, NextStartFixed(r, cur));
  }

  lemma NextStartFixedIsWordStart(r: string, cur: string)
    requires exists j :: 0 <= j < |r| && !IsSeparator(r[j])
    ensures WordStart(r, NextStartFixed(r, cur))
  {
    var q := FindWordMatch(r, cur, 0);
    var e := if q < |r| then SkipSeparators(r, q + |cur|) else |r|;
    var s := NextStartFixed(r, cur);
    if e == |r| {
      var j :| 0 <= j < |r| && !IsSeparator(r[j]);
      assert s == SkipSeparators(r, 0);
      assert s <= j;
    } else {
      assert q + |cur| == WordEnd(r, q);
      assert e > q + |cur|;
    }
  }

  /** The corrected rotation still moves from a listed map to the next one. */
  lemma FixedRotationAdvances()
    ensures NextMapNameFixed("a b c", "a") == "b"
  {
    var r := "a b c";
    assert WordStart(r, 0) && MatchAt(r, "a", 0);
    assert NextStartFixed(r, "a") == 2;
  }

  /** The corrected rotation still wraps after the last map. */
  lemma FixedRotationWraps()
    ensures NextMapNameFixed("a b c", "c") == "a"
  {
    var r := "a b c";
    assert !MatchAt(r, "c", 0) && !WordStart(r, 1) && !MatchAt(r, "c", 2) && !WordStart(r, 3);
    assert WordStart(r, 4) && MatchAt(r, "c", 4);
    assert NextStartFixed(r, "c") == 0;
  }

  /** The corrected rotation wraps past leading separators to the first map. */
  lemma FixedSkipsLeadingSeparator()
    ensures NextMapNameFixed(" a b", "b") == "a"
  {
    var r := " a b";
    assert !WordStart(r, 0) && !MatchAt(r, "b", 1) && !WordStart(r, 2);
    assert WordStart(r, 3) && MatchAt(r, "b", 3);
    assert NextStartFixed(r, "b") == 1;
  }

  /** The corrected rotation ignores the current map's name inside a longer word. */
  lemma FixedMatchesWholeWords()
    ensures NextMapNameFixed("xa y a z", "a") == "z"
  {
    var r := "xa y a z";
    assert !MatchAt(r, "a", 0) && !WordStart(r, 1) && !WordStart(r, 2);
    assert !MatchAt(r, "a", 3) && !WordStart(r, 4);
    assert WordStart(r, 5) && MatchAt(r, "a", 5);
    assert NextStartFixed(r, "a") == 7;
  }

  /** As written, a rotation that starts with a separator wraps to an empty
      map name. */
  lemma LeadingSeparatorGivesEmptyName()
    ensures NextMapName(" a b", "b") == ""
  {
    var r := " a b";
    assert !MatchAt(r, "b", 0) && !MatchAt(r, "b", 1) && !MatchAt(r, "b", 2);
    assert MatchAt(r, "b", 3);
    assert NextStart(r, "b") == 0;
  }

  /** As written, the current map is also found inside a longer word. */
  lemma MatchInsideLongerWord()
    ensures NextMapName("xa y a z", "a") == "y"
  {
    var r := "xa y a z";
    assert !MatchAt(r, "a", 0) && MatchAt(r, "a", 1);
    assert NextStart(r, "a") == 3;
  }

  // ---------------------------------------------------------------------
  // Players

  /** The part of a player the controller reads and scores. */
  class Player {
    var team: int
    var score: int
    var respawnTick: int

    constructor (team: int)
      ensures this.team == team && score == 0 && respawnTick == 0
    {
      this.team := team;
      score := 0;
      respawnTick := 0;
    }
  }

  /** Every connected player is a spectator or on team 0 or 1 (the counting
      loops index a two-element array by team). */
  predicate ValidTeams(roster: seq<Player?>)
    reads roster
  {
    forall i :: 0 <= i < |roster| && roster[i] != null ==> TEAM_SPECTATORS <= roster[i].team <= TEAM_BLUE
  }

  /** The number of connected players on a team. */
  function CountTeam(roster: seq<Player?>, team: int): nat
    reads roster
  {
    if roster == [] then 0
    else
      var last := roster[|roster| - 1];
      CountTeam(roster[..|roster| - 1], team) + (if last != null && last.team == team then 1 else 0)
  }

  /** The number of connected players with the given score. */
  function CountScore(roster: seq<Player?>, score: int): nat
    reads roster
  {
    if roster == [] then 0
    else
      var last := roster[|roster| - 1];
      CountScore(roster[..|roster| - 1], score) + (if last != null && last.score == score then 1 else 0)
  }

  /** Two different teams never hold more players than are connected. */
  lemma {:induction false} TeamCountsBounded(roster: seq<Player?>)
    ensures CountTeam(roster, TEAM_RED) + CountTeam(roster, TEAM_BLUE) <= |roster|
    decreases |roster|
  {
    if roster != [] {
      TeamCountsBounded(roster[..|roster| - 1]);
    }
  }

  /** Counts the players per playing team, as both balance checks do. */
  method CountTeams(roster: seq<Player?>) returns (red: nat, blue: nat)
    requires ValidTeams(roster)
    ensures red == CountTeam(roster, TEAM_RED) && blue == CountTeam(roster, TEAM_BLUE)
  {
    red, blue := 0, 0;
    var i := 0;
    while i < |roster|
      invariant 0 <= i <= |roster|
      invariant red == CountTeam(roster[..i], TEAM_RED) && blue == CountTeam(roster[..i], TEAM_BLUE)
    {
      assert roster[..i + 1][..i] == roster[..i];
      var p := roster[i];
      if p != null && p.team != TEAM_SPECTATORS {
        if p.team == TEAM_RED {
          red := red + 1;
        } else {
          blue := blue + 1;
        }
      }
      i := i + 1;
    }
    assert roster[..|roster|] == roster;
  }

  // ---------------------------------------------------------------------
  // Top score of a non-team game

  /** The running maximum of the win check: the highest score of a
      connected player, starting from TOPSCORE_FLOOR. */
  function TopScore(roster: seq<Player?>): int
    reads roster
  {
    if roster == [] then TOPSCORE_FLOOR
    else
      var m := TopScore(roster[..|roster| - 1]);
      var last := roster[|roster| - 1];
      if last != null && last.score > m then last.score else m
  }

  /** The running count of the win check: reset to 1 on a new maximum,
      incremented on a tie with it. */
  function TopCount(roster: seq<Player?>): nat
    reads roster
  {
    if roster == [] then 0
    else
      var init := roster[..|roster| - 1];
      var last := roster[|roster| - 1];
      if last != null && last.score > TopScore(init) then 1
      else if last != null && last.score == TopScore(init) then TopCount(init) + 1
      else TopCount(init)
  }

  /** TopScore is at least the floor and every connected player's score, and
      it is either the floor or some player's score. */
  lemma {:induction false} TopScoreIsMaximum(roster: seq<Player?>)
    ensures TopScore(roster) >= TOPSCORE_FLOOR
    ensures forall i :: 0 <= i < |roster| && roster[i] != null ==> roster[i].score <= TopScore(roster)
    ensures TopScore(roster) == TOPSCORE_FLOOR
      || exists i :: 0 <= i < |roster| && roster[i] != null && roster[i].score == TopScore(roster)
    decreases |roster|
  {
    if roster != [] {
      var init := roster[..|roster| - 1];
      TopScoreIsMaximum(init);
      forall i | 0 <= i < |roster| - 1
        ensures roster[i] == init[i]
      {
      }
      if TopScore(roster) != TOPSCORE_FLOOR && TopScore(roster) == TopScore(init) {
        var i :| 0 <= i < |init| && init[i] != null && init[i].score == TopScore(init);
        assert roster[i] == init[i];
      }
    }
  }

  /** A score no connected player holds is counted zero times. */
  lemma {:induction false} CountScoreAbsent(roster: seq<Player?>, score: int)
    requires forall i :: 0 <= i < |roster| && roster[i] != null ==> roster[i].score != score
    ensures CountScore(roster, score) == 0
    decreases |roster|
  {
    if roster != [] {
      var init := roster[..|roster| - 1];
      forall i | 0 <= i < |init| && init[i] != null
        ensures init[i].score != score
      {
        assert init[i] == roster[i];
      }
      CountScoreAbsent(init, score);
    }
  }

  /** The win check's running count is the number of players holding the
      top score. */
  lemma {:induction false} TopCountCounts(roster: seq<Player?>)
    ensures TopCount(roster) == CountScore(roster, TopScore(roster))
    decreases |roster|
  {
    if roster != [] {
      var init := roster[..|roster| - 1];
      var last := roster[|roster| - 1];
      TopCountCounts(init);
      if last != null && last.score > TopScore(init) {
        TopScoreIsMaximum(init);
        CountScoreAbsent(init, last.score);
      }
    }
  }

  /** Player i leads alone: connected, at least the floor, and strictly
      ahead of every other connected player. */
  predicate SoleLeader(roster: seq<Player?>, i: int)
    reads roster
  {
    && 0 <= i < |roster| && roster[i] != null && roster[i].score >= TOPSCORE_FLOOR
    && forall j :: 0 <= j < |roster| && j != i && roster[j] != null ==> roster[j].score < roster[i].score
  }

  lemma {:induction false} CountScoreZero(roster: seq<Player?>, score: int)
    requires CountScore(roster, score) == 0
    ensures forall i :: 0 <= i < |roster| && roster[i] != null ==> roster[i].score != score
    decreases |roster|
  {
    if roster != [] {
      var init := roster[..|roster| - 1];
      CountScoreZero(init, score);
      forall i | 0 <= i < |roster| - 1
        ensures roster[i] == init[i]
      {
      }
    }
  }

  lemma {:induction false} CountScoreOne(roster: seq<Player?>, score: int, i: int)
    requires 0 <= i < |roster| && roster[i] != null && roster[i].score == score
    requires forall j :: 0 <= j < |roster| && j != i && roster[j] != null ==> roster[j].score != score
    ensures CountScore(roster, score) == 1
    decreases |roster|
  {
    var init := roster[..|roster| - 1];
    forall j | 0 <= j < |init| && j != i && init[j] != null
      ensures init[j].score != score
    {
      assert init[j] == roster[j];
    }
    if i == |roster| - 1 {
      CountScoreAbsent(init, score);
    } else {
      CountScoreOne(init, score, i);
    }
  }

  lemma {:induction false} CountScoreOneHolder(roster: seq<Player?>, score: int) returns (i: int)
    requires CountScore(roster, score) == 1
    ensures 0 <= i < |roster| && roster[i] != null && roster[i].score == score
    ensures forall j :: 0 <= j < |roster| && j != i && roster[j] != null ==> roster[j].score != score
    decreases |roster|
  {
    var init := roster[..|roster| - 1];
    var last := roster[|roster| - 1];
    forall j | 0 <= j < |roster| - 1
      ensures roster[j] == init[j]
    {
    }
    if last != null && last.score == score {
      CountScoreZero(init, score);
      i := |roster| - 1;
    } else {
      i := CountScoreOneHolder(init, score);
    }
  }

  /** Exactly one player holds the top score exactly when some player leads
      alone, so the non-team win check ends a round only with a sole leader. */
  lemma UniqueTopScore(roster: seq<Player?>)
    ensures CountScore(roster, TopScore(roster)) == 1 <==> exists i :: SoleLeader(roster, i)
  {
    var top := TopScore(roster);
    TopScoreIsMaximum(roster);
    if CountScore(roster, top) == 1 {
      var i := CountScoreOneHolder(roster, top);
      assert SoleLeader(roster, i);
    }
    if i :| SoleLeader(roster, i) {
      if top != TOPSCORE_FLOOR {
        var k :| 0 <= k < |roster| && roster[k] != null && roster[k].score == top;
        assert k == i;
      }
      assert roster[i].score == top;
      CountScoreOne(roster, top, i);
    }
  }

  /** The time limit is reached when the round has lasted the limit's
      minutes in ticks (a limit of 0 disables it). */
  predicate TimeLimitReached(timeLimit: int, tick: int, roundStartTick: int, tickSpeed: int)
  {
    timeLimit > 0 && tick - roundStartTick >= timeLimit * tickSpeed * 60
  }

  /** Warmup ticks for a number of seconds; a negative number disables warmup. */
  function WarmupTicks(seconds: int, tickSpeed: nat): (ticks: int)
    ensures ticks >= 0
    ensures ticks == 0 <==> seconds <= 0 || tickSpeed == 0
  {
    if seconds < 0 then 0 else seconds * tickSpeed
  }

  /** How a death is scored. */
  datatype DeathKind = Unscored | Suicide | TeamKill | Kill

  /** A death is unscored without a killer or when the game itself killed;
      otherwise it is a suicide, a kill of a team mate in a team game, or a
      kill. */
  function ClassifyDeath(hasKiller: bool, weapon: int, suicide: bool, teamplay: bool, sameTeam: bool): (k: DeathKind)
    ensures k == Unscored <==> !hasKiller || weapon == WEAPON_GAME
    ensures k == Suicide <==> hasKiller && weapon != WEAPON_GAME && suicide
    ensures k == TeamKill <==> hasKiller && weapon != WEAPON_GAME && !suicide && teamplay && sameTeam
    ensures k == Kill <==> hasKiller && weapon != WEAPON_GAME && !suicide && !(teamplay && sameTeam)
  {
    if !hasKiller || weapon == WEAPON_GAME then Unscored
    else if suicide then Suicide
    else if teamplay && sameTeam then TeamKill
    else Kill
  }

  /** Counts the characters of the word at p (up to a separator or the end). */
  method WordLength(rotation: string, p: nat) returns (len: nat)
    requires p <= |rotation|
    ensures p + len == WordEnd(rotation, p)
  {
    len := 0;
    while p + len < |rotation| && !IsSeparator(rotation[p + len])
      invariant p + len <= |rotation|
      invariant WordEnd(rotation, p + len) == WordEnd(rotation, p)
      decreases |rotation| - p - len
    {
      len := len + 1;
    }
  }

  /** Moves past the separators starting at p. */
  method SkipSeparatorsFrom(rotation: string, p: nat) returns (e: nat)
    requires p <= |rotation|
    ensures e == SkipSeparators(rotation, p)
  {
    e := p;
    while e < |rotation| && IsSeparator(rotation[e])
      invariant p <= e <= |rotation|
      invariant SkipSeparators(rotation, e) == SkipSeparators(rotation, p)
      decreases |rotation| - e
    {
      e := e + 1;
    }
  }

  /** The rotation scan: moves one character at a time until the current
      map's name is found, skips the separators after it, and restarts at
      the beginning when it reaches the end of the list. */
  method FindNextStart(rotation: string, current: string) returns (p: nat)
    ensures p == NextStart(rotation, current)
  {
    ghost var q := FindMatch(rotation, current, 0);
    p := 0;
    while p < |rotation|
      invariant p <= |rotation|
      invariant FindMatch(rotation, current, p) == q
      decreases |rotation| - p
    {
      var wordLen := WordLength(rotation, p);
      if wordLen == |current| && rotation[p..p + |current|] == current {
        assert MatchAt(rotation, current, p);
        p := SkipSeparatorsFrom(rotation, p + |current|);
        break;
      }
      p := p + 1;
    }
    if p == |rotation| {
      p := 0;
    }
  }

  /** Copies the name at start into a fresh buffer, stopping at a separator,
      the end of the list or the buffer's capacity. */
  method CutOutName(rotation: string, start: nat) returns (name: string)
    requires start <= |rotation|
    ensures name == CutName(rotation, start)
  {
    name := "";
    var i := 0;
    while i < MAP_NAME_CAP
      invariant i <= MAP_NAME_CAP && start + i <= |rotation|
      invariant name == rotation[start..start + i]
      invariant WordEnd(rotation, start + i) == WordEnd(rotation, start)
    {
      if start + i == |rotation| || IsSeparator(rotation[start + i]) {
        break;
      }
      name := name + [rotation[start + i]];
      i := i + 1;
    }
  }

  // ---------------------------------------------------------------------
  // The controller

  /** Round and rotation state of the game controller. svMap is the
      server's current-map setting, which the rotation rewrites. */
  class Controller {
    const teamplay: bool
    var warmup: int
    var gameOverTick: int
    var suddenDeath: int
    var roundStartTick: int
    var roundCount: int
    var teamscoreRed: int
    var teamscoreBlue: int
    var mapWish: string
    var svMap: string
    var unbalancedTick: int
    var forceBalanced: bool

    constructor (teamplay: bool, warmupSeconds: int, tick: int, tickSpeed: nat, svMap: string)
      ensures this.teamplay == teamplay && this.svMap == svMap
      ensures warmup == WarmupTicks(warmupSeconds, tickSpeed)
      ensures gameOverTick == -1 && suddenDeath == 0 && roundStartTick == tick && roundCount == 0
      ensures teamscoreRed == 0 && teamscoreBlue == 0 && mapWish == ""
      ensures unbalancedTick == -1 && !forceBalanced
    {
      this.teamplay := teamplay;
      warmup := WarmupTicks(warmupSeconds, tickSpeed);
      gameOverTick := -1;
      suddenDeath := 0;
      roundStartTick := tick;
      roundCount := 0;
      teamscoreRed := 0;
      teamscoreBlue := 0;
      mapWish := "";
      this.svMap := svMap;
      unbalancedTick := -1;
      forceBalanced := false;
    }

    /** Sets the warmup from a number of seconds. */
    method DoWarmup(seconds: int, tickSpeed: nat)
      modifies this`warmup
      ensures warmup == WarmupTicks(seconds, tickSpeed)
    {
      if seconds < 0 {
        warmup := 0;
      } else {
        warmup := seconds * tickSpeed;
      }
    }

    /** Switches to the next map: a pending map wish wins; otherwise, once
      the current map has been played for its rounds, the map after the
      current one in the rotation list. Returns whether the teams should be
      swapped instead (more rounds to go on this map, with swapping on). */
    method CycleMap(rotation: string, roundsPerMap: int, roundSwap: bool) returns (swapTeams: bool)
      modifies this`mapWish, this`roundCount, this`svMap
      ensures old(mapWish) != "" ==>
        svMap == old(mapWish) && mapWish == "" && roundCount == 0 && !swapTeams
      ensures old(mapWish) == "" && (rotation == "" || old(roundCount) < roundsPerMap - 1) ==>
        svMap == old(svMap) && mapWish == old(mapWish) && roundCount == old(roundCount)
        && swapTeams == (rotation != "" && roundSwap)
      ensures old(mapWish) == "" && rotation != "" && old(roundCount) >= roundsPerMap - 1 ==>
        svMap == NextMapName(rotation, old(svMap)) && mapWish == "" && roundCount == 0 && !swapTeams
    {
      if mapWish != "" {
        svMap := mapWish;
        mapWish := "";
        roundCount := 0;
        return false;
      }
      if |rotation| == 0 {
        return false;
      }
      if roundCount < roundsPerMap - 1 {
        return roundSwap;
      }

      var start := FindNextStart(rotation, svMap);
      var name := CutOutName(rotation, start);
      roundCount := 0;
      svMap := name;
      return false;
    }

    /** Reads the force-balance flag and clears it. */
    method IsForceBalanced() returns (b: bool)
      modifies this`forceBalanced
      ensures b == old(forceBalanced) && !forceBalanced
    {
      if forceBalanced {
        forceBalanced := false;
        return true;
      } else {
        return false;
      }
    }

    /** Ends the round at the given tick, except during warmup. */
    method EndRound(tick: int)
      modifies this`gameOverTick, this`suddenDeath
      ensures warmup != 0 ==> gameOverTick == old(gameOverTick) && suddenDeath == old(suddenDeath)
      ensures warmup == 0 ==> gameOverTick == tick && suddenDeath == 0
    {
      if warmup != 0 {
        return;
      }
      gameOverTick := tick;
      suddenDeath := 0;
    }

    /** Ends the round or declares sudden death once a score or time limit
      is reached: in a team game the round ends unless the team scores are
      tied, otherwise it ends only if one player holds the top score. */
    method DoWincheck(roster: seq<Player?>, resetRequested: bool, scoreLimit: int, timeLimit: int, tick: int, tickSpeed: int)
      modifies this`gameOverTick, this`suddenDeath
      ensures var active := old(gameOverTick) == -1 && warmup == 0 && !resetRequested;
        var timeUp := TimeLimitReached(timeLimit, tick, roundStartTick, tickSpeed);
        var limit :=
          if teamplay then (scoreLimit > 0 && (teamscoreRed >= scoreLimit || teamscoreBlue >= scoreLimit)) || timeUp
          else (scoreLimit > 0 && TopScore(roster) >= scoreLimit) || timeUp;
        var decided :=
          if teamplay then teamscoreRed != teamscoreBlue
          else CountScore(roster, TopScore(roster)) == 1;
        if active && limit && decided then gameOverTick == tick && suddenDeath == 0
        else if active && limit then gameOverTick == old(gameOverTick) && suddenDeath == 1
        else gameOverTick == old(gameOverTick) && suddenDeath == old(suddenDeath)
    {
      if gameOverTick == -1 && warmup == 0 && !resetRequested {
        if teamplay {
          if (scoreLimit > 0 && (teamscoreRed >= scoreLimit || teamscoreBlue >= scoreLimit))
            || (timeLimit > 0 && tick - roundStartTick >= timeLimit * tickSpeed * 60)
          {
            if teamscoreRed != teamscoreBlue {
              EndRound(tick);
            } else {
              suddenDeath := 1;
            }
          }
        } else {
          var topScore := TOPSCORE_FLOOR;
          var topCount := 0;
          var i := 0;
          while i < |roster|
            invariant 0 <= i <= |roster|
            invariant topScore == TopScore(roster[..i]) && topCount == TopCount(roster[..i])
            invariant gameOverTick == old(gameOverTick) && suddenDeath == old(suddenDeath)
          {
            assert roster[..i + 1][..i] == roster[..i];
            var p := roster[i];
            if p != null {
              if p.score > topScore {
                topScore := p.score;
                topCount := 1;
              } else if p.score == topScore {
                topCount := topCount + 1;
              }
            }
            i := i + 1;
          }
          assert roster[..|roster|] == roster;
          TopCountCounts(roster);
          if (scoreLimit > 0 && topScore >= scoreLimit)
            || (timeLimit > 0 && tick - roundStartTick >= timeLimit * tickSpeed * 60)
          {
            if topCount == 1 {
              EndRound(tick);
            } else {
              suddenDeath := 1;
            }
          }
        }
      }
    }

    /** Whether teams are balanced (a difference below two players). The
      first unbalanced tick is remembered and cleared again on balance. */
    method CheckTeamBalance(roster: seq<Player?>, balanceTime: int, tick: int) returns (balanced: bool)
      requires ValidTeams(roster)
      modifies this`unbalancedTick
      ensures var red, blue := CountTeam(roster, TEAM_RED), CountTeam(roster, TEAM_BLUE);
        balanced <==> !teamplay || balanceTime == 0 || -2 < red - blue < 2
      ensures unbalancedTick ==
        if !teamplay || balanceTime == 0 then old(unbalancedTick)
        else if balanced then -1
        else if old(unbalancedTick) == -1 then tick
        else old(unbalancedTick)
    {
      if !teamplay || balanceTime == 0 {
        return true;
      }
      var red: int, blue: int := CountTeams(roster);
      if red - blue >= 2 || blue - red >= 2 {
        if unbalancedTick == -1 {
          unbalancedTick := tick;
        }
        return false;
      } else {
        unbalancedTick := -1;
        return true;
      }
    }

    /** Whether a player may join a team: in a team game with balancing on,
      a move that would leave the teams two or more apart is allowed only
      onto the strictly smaller team, so the joined team never ends up
      more than one player ahead. */
    method CanChangeTeam(roster: seq<Player?>, player: Player, joinTeam: int, balanceTime: int) returns (allowed: bool)
      requires ValidTeams(roster)
      requires TEAM_SPECTATORS <= player.team <= TEAM_BLUE
      requires TEAM_SPECTATORS <= joinTeam <= TEAM_BLUE
      ensures !teamplay || joinTeam == TEAM_SPECTATORS || balanceTime == 0 ==> allowed
      ensures teamplay && joinTeam != TEAM_SPECTATORS && balanceTime != 0 ==>
        var other := 1 - joinTeam;
        var joined := CountTeam(roster, joinTeam) + 1;
        var left := CountTeam(roster, other) - (if player.team != TEAM_SPECTATORS then 1 else 0);
        (allowed <==> joined <= left + 1)
    {
      if !teamplay || joinTeam == TEAM_SPECTATORS || balanceTime == 0 {
        return true;
      }
      var red, blue := CountTeams(roster);
      var a0: int, a1: int := red, blue;
      // simulate the move
      if joinTeam == TEAM_RED { a0 := a0 + 1; } else { a1 := a1 + 1; }
      if player.team != TEAM_SPECTATORS {
        if joinTeam == TEAM_RED { a1 := a1 - 1; } else { a0 := a0 - 1; }
      }
      if a0 - a1 >= 2 || a1 - a0 >= 2 {
        allowed := (a0 < a1 && joinTeam == TEAM_RED) || (a0 > a1 && joinTeam == TEAM_BLUE);
      } else {
        allowed := true;
      }
    }

    /** Scores a death: nothing without a killer or for a game kill; a
      suicide costs the victim a point, killing a team mate costs the killer
      a point, any other kill earns the killer a point. A self-inflicted
      death delays the victim's respawn by three seconds. Always 0. */
    method OnCharacterDeath(victim: Player, killer: Player?, weapon: int, tick: int, tickSpeed: int) returns (r: int)
      modifies victim, killer
      ensures r == 0
      ensures victim.team == old(victim.team) && (killer != null ==> killer.team == old(killer.team))
      ensures var kind := ClassifyDeath(killer != null, weapon, killer == victim, teamplay,
          killer != null && old(victim.team) == old(killer.team));
        match kind
        case Unscored =>
          victim.score == old(victim.score) && victim.respawnTick == old(victim.respawnTick)
          && (killer != null ==> killer.score == old(killer.score))
        case Suicide =>
          victim.score == old(victim.score) - 1
        case TeamKill =>
          killer != null && killer.score == old(killer.score) - 1 && victim.score == old(victim.score)
        case Kill =>
          killer != null && killer.score == old(killer.score) + 1 && victim.score == old(victim.score)
      ensures killer != null && killer != victim ==> killer.respawnTick == old(killer.respawnTick)
      ensures killer != null && weapon != WEAPON_GAME ==>
        victim.respawnTick == if weapon == WEAPON_SELF then tick + tickSpeed * SELF_KILL_RESPAWN_SECONDS else old(victim.respawnTick)
    {
      if killer == null || weapon == WEAPON_GAME {
        return 0;
      }
      if killer == victim {
        victim.score := victim.score - 1;
      } else {
        if teamplay && victim.team == killer.team {
          killer.score := killer.score - 1;
        } else {
          killer.score := killer.score + 1;
        }
      }
      if weapon == WEAPON_SELF {
        victim.respawnTick := tick + tickSpeed * SELF_KILL_RESPAWN_SECONDS;
      }
      return 0;
    }
  }
}
