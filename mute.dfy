/** The mute table (IP address and expiry tick per entry, purged of expired
    entries at most once per tick) and the chat spam filter. */
module Mute {

  datatype Option<T> = None | Some(value: T)

  /** One mute: the muted address and the tick at which the mute ends. */
  datatype MuteEntry = MuteEntry(ip: string, expires: int)

  // ---------------------------------------------------------------------
  // Table contents as values

  /** The entries still in force at a tick, in their order. */
  function Live(table: seq<MuteEntry>, tick: int): (r: seq<MuteEntry>)
    ensures |r| <= |table|
    ensures forall i :: 0 <= i < |r| ==> r[i].expires > tick
  {
    if table == [] then []
    else (if table[0].expires > tick then [table[0]] else []) + Live(table[1..], tick)
  }

  lemma LiveFront(table: seq<MuteEntry>, tick: int)
    requires table != []
    ensures Live(table, tick) == (if table[0].expires > tick then [table[0]] else []) + Live(table[1..], tick)
  {
  }

  /** One step of the purge loop at position i keeps the entries before i
      plus the purge of the rest unchanged, whether it drops the expired
      entry at i or moves past a live one. */
  lemma PurgeStep(table: seq<MuteEntry>, i: nat, tick: int)
    requires i < |table|
    ensures var dropped := table[..i] + table[i + 1..];
      table[i].expires <= tick ==>
        multiset(dropped[..i]) + multiset(Live(dropped[i..], tick))
        == multiset(table[..i]) + multiset(Live(table[i..], tick))
    ensures table[i].expires > tick ==>
        multiset(table[..i + 1]) + multiset(Live(table[i + 1..], tick))
        == multiset(table[..i]) + multiset(Live(table[i..], tick))
  {
    LiveFront(table[i..], tick);
    assert table[i..][1..] == table[i + 1..];
    var dropped := table[..i] + table[i + 1..];
    assert dropped[..i] == table[..i] && dropped[i..] == table[i + 1..];
    assert table[..i + 1] == table[..i] + [table[i]];
  }

  /** A purge keeps every unexpired entry as often as it occurs and drops
      every expired one. */
  lemma {:induction false} LiveKeepsExactlyUnexpired(table: seq<MuteEntry>, tick: int, e: MuteEntry)
    ensures multiset(Live(table, tick))[e] == if e.expires > tick then multiset(table)[e] else 0
    decreases |table|
  {
    if table != [] {
      LiveKeepsExactlyUnexpired(table[1..], tick, e);
      assert table == [table[0]] + table[1..];
    }
  }

  /** Purging twice at the same tick changes nothing the second time. */
  lemma {:induction false} LiveIdempotent(table: seq<MuteEntry>, tick: int)
    ensures Live(Live(table, tick), tick) == Live(table, tick)
    decreases |table|
  {
    if table != [] {
      LiveIdempotent(table[1..], tick);
      var rest := Live(table[1..], tick);
      var l := Live(table, tick);
      if table[0].expires > tick {
        assert l == [table[0]] + rest;
        assert l[0] == table[0] && l[1..] == rest;
        assert Live(l, tick) == [l[0]] + Live(l[1..], tick);
      } else {
        assert l == rest;
      }
    }
  }

  /** A table that holds the same entries as a purge at a tick holds no
      entry that has expired by then. */
  lemma PurgedTableIsLive(before: seq<MuteEntry>, after: seq<MuteEntry>, tick: int)
    requires multiset(after) == multiset(Live(before, tick))
    ensures forall i :: 0 <= i < |after| ==> after[i].expires > tick
  {
    forall i | 0 <= i < |after|
      ensures after[i].expires > tick
    {
      assert after[i] in multiset(after);
      assert after[i] in Live(before, tick);
    }
  }

  /** What a refresh of the table does: it records the tick and, unless the
      table was already purged at that tick, keeps exactly the entries that
      have not expired (their order is not specified). */
  predicate Refresh(before: seq<MuteEntry>, beforePurge: int, after: seq<MuteEntry>, afterPurge: int, tick: int)
  {
    && afterPurge == tick
    && if beforePurge != tick then multiset(after) == multiset(Live(before, tick)) else after == before
  }

  /** The index of the first entry for an address at or after position i. */
  function FindFrom(table: seq<MuteEntry>, ip: string, i: nat): (r: Option<nat>)
    requires i <= |table|
    ensures r.Some? ==> (i <= r.value < |table| && table[r.value].ip == ip
      && forall j :: i <= j < r.value ==> table[j].ip != ip)
    ensures r.None? ==> forall j :: i <= j < |table| ==> table[j].ip != ip
    decreases |table| - i
  {
    if i == |table| then None
    else if table[i].ip == ip then Some(i)
    else FindFrom(table, ip, i + 1)
  }

  /** The lookup of a mute: none for the empty address, else the first
      entry for the address. */
  function MutedIndex(table: seq<MuteEntry>, ip: string): (r: Option<nat>)
    ensures ip == "" ==> r.None?
    ensures r.Some? ==> (r.value < |table| && table[r.value].ip == ip
      && forall j :: 0 <= j < r.value ==> table[j].ip != ip)
    ensures ip != "" && r.None? ==> forall j :: 0 <= j < |table| ==> table[j].ip != ip
  {
    if ip == "" then None else FindFrom(table, ip, 0)
  }

  /** The table after muting an address until a tick: the first entry for
      it gets the new expiry, or a new entry is appended. */
  function Upsert(table: seq<MuteEntry>, ip: string, expires: int): seq<MuteEntry>
  {
    match MutedIndex(table, ip)
    case None => table + [MuteEntry(ip, expires)]
    case Some(k) => table[k := table[k].(expires := expires)]
  }

  /** The table after lifting a mute: its expiry becomes 0. */
  function Expire(table: seq<MuteEntry>, mute: Option<nat>): seq<MuteEntry>
    requires mute.Some? ==> mute.value < |table|
  {
    match mute
    case None => table
    case Some(k) => table[k := table[k].(expires := 0)]
  }

  /** After muting an address, looking it up finds an entry with the new
      expiry; the table grew by one exactly when the address was not muted
      before; looking up any other address finds what it found before. */
  lemma UpsertThenLookup(table: seq<MuteEntry>, ip: string, expires: int)
    requires ip != ""
    ensures var u := Upsert(table, ip, expires);
      && MutedIndex(u, ip).Some?
      && u[MutedIndex(u, ip).value] == MuteEntry(ip, expires)
      && |u| == |table| + (if MutedIndex(table, ip).None? then 1 else 0)
      && forall other :: other != ip ==> MutedIndex(u, other) == MutedIndex(table, other)
  {
    var u := Upsert(table, ip, expires);
    forall other | other != ip
      ensures MutedIndex(u, other) == MutedIndex(table, other)
    {
      if other != "" {
        FindUnaffected(table, u, other, ip, 0);
      }
    }
    match MutedIndex(table, ip)
    case None =>
      assert u[|table|].ip == ip;
      assert forall j :: 0 <= j < |table| ==> u[j] == table[j];
    case Some(k) =>
      assert u[k].ip == ip;
  }

  /** Changing expiries of entries for one address, or appending an entry
      for it, leaves the first match of every other address where it was. */
  lemma {:induction false} FindUnaffected(table: seq<MuteEntry>, u: seq<MuteEntry>, other: string, ip: string, i: nat)
    requires other != ip && i <= |table| <= |u| <= |table| + 1
    requires forall j :: 0 <= j < |table| ==> u[j].ip == table[j].ip
    requires |u| == |table| + 1 ==> u[|table|].ip == ip
    ensures FindFrom(u, other, i) == FindFrom(table, other, i)
    decreases |table| - i
  {
    if i < |table| {
      FindUnaffected(table, u, other, ip, i + 1);
    }
  }

  /** A lifted mute is gone after the next purge at any tick from 0 on: the
      purge keeps one entry fewer if that entry was still in force. */
  lemma {:induction false} ExpireThenPurge(table: seq<MuteEntry>, k: nat, tick: int)
    requires k < |table| && tick >= 0
    ensures |Live(Expire(table, Some(k)), tick)| == |Live(table, tick)| - (if table[k].expires > tick then 1 else 0)
    decreases |table|
  {
    var t := Expire(table, Some(k));
    assert t[1..] == if k == 0 then table[1..] else Expire(table[1..], Some(k - 1));
    if k > 0 {
      ExpireThenPurge(table[1..], k - 1, tick);
    }
  }

  // ---------------------------------------------------------------------
  // The table

  class MuteTable {
    var mutes: seq<MuteEntry>
    var lastPurge: int

    constructor ()
      ensures mutes == [] && lastPurge == 0
    {
      mutes := [];
      lastPurge := 0;
    }

    /** Drops every expired entry. The count taken in the loop condition
      records the tick as purged first. */
    method PurgeMutes(tick: int)
      modifies this
      ensures lastPurge == tick
      ensures multiset(mutes) == multiset(Live(old(mutes), tick))
    {
      lastPurge := tick;
      var i := 0;
      while i < |mutes|
        invariant 0 <= i <= |mutes|
        invariant lastPurge == tick
        invariant multiset(mutes[..i]) + multiset(Live(mutes[i..], tick)) == multiset(Live(old(mutes), tick))
      {
        hide Live;
        PurgeStep(mutes, i, tick);
        if mutes[i].expires <= tick {
          mutes := mutes[..i] + mutes[i + 1..];
        } else {
          i := i + 1;
        }
      }
      assert mutes[..i] == mutes && mutes[i..] == [];
    }

    /** The number of mutes in force, purging first unless this tick was
      purged already. */
    method NumMutes(tick: int) returns (n: int)
      modifies this
      ensures Refresh(old(mutes), old(lastPurge), mutes, lastPurge, tick)
      ensures n == |mutes|
    {
      if lastPurge != tick {
        lastPurge := tick;
        PurgeMutes(tick);
      }
      return |mutes|;
    }

    /** The first mute for an address; the empty address is never muted and
      is looked up without a refresh. */
    method Muted(ip: string, tick: int) returns (r: Option<nat>)
      modifies this
      ensures ip == "" ==> r.None? && mutes == old(mutes) && lastPurge == old(lastPurge)
      ensures ip != "" ==> Refresh(old(mutes), old(lastPurge), mutes, lastPurge, tick)
      ensures r == MutedIndex(mutes, ip)
    {
      if ip == "" {
        return None;
      }
      var i := 0;
      var n := NumMutes(tick);
      while i < n
        invariant 0 <= i <= n == |mutes|
        invariant Refresh(old(mutes), old(lastPurge), mutes, lastPurge, tick)
        invariant forall j :: 0 <= j < i ==> mutes[j].ip != ip
      {
        if mutes[i].ip == ip {
          assert FindFrom(mutes, ip, i) == Some(i);
          assert FindFrom(mutes, ip, 0) == Some(i) by { FindSkips(mutes, ip, 0, i); }
          return Some(i);
        }
        i := i + 1;
        n := NumMutes(tick);
      }
      FindSkips(mutes, ip, 0, i);
      return None;
    }

    /** The mute at a position of the refreshed table, if there is one. A
      negative position is refused before any refresh. */
    method GetMute(num: int, tick: int) returns (r: Option<nat>)
      modifies this
      ensures num < 0 ==> r.None? && mutes == old(mutes) && lastPurge == old(lastPurge)
      ensures num >= 0 ==> (Refresh(old(mutes), old(lastPurge), mutes, lastPurge, tick)
        && r == if num < |mutes| then Some(num) else None)
    {
      if num < 0 {
        return None;
      }
      var n := NumMutes(tick);
      if num >= n {
        return None;
      }
      return Some(num);
    }

    /** Lifts a mute by setting its expiry to 0; no mute, no change. */
    method Unmute(mute: Option<nat>)
      requires mute.Some? ==> mute.value < |mutes|
      modifies this`mutes
      ensures mutes == Expire(old(mutes), mute)
    {
      if mute.None? {
        return;
      }
      var k := mute.value;
      mutes := mutes[k := mutes[k].(expires := 0)];
    }

    /** Mutes an address for secs seconds from tick, overwriting an existing
      mute; a negative duration lifts the mute instead and reports false.
      looked is the table as the lookup left it (refreshed unless the
      address is empty). */
    method AddMute(ip: string, secs: int, tick: int, tickSpeed: int) returns (added: bool, ghost looked: seq<MuteEntry>)
      modifies this
      ensures ip == "" ==> looked == old(mutes) && lastPurge == old(lastPurge)
      ensures ip != "" ==> Refresh(old(mutes), old(lastPurge), looked, lastPurge, tick)
      ensures added <==> secs >= 0
      ensures secs < 0 ==> mutes == Expire(looked, MutedIndex(looked, ip))
      ensures secs >= 0 ==> mutes == Upsert(looked, ip, tickSpeed * secs + tick)
    {
      var mute := Muted(ip, tick);
      looked := mutes;
      if secs < 0 {
        Unmute(mute);
        return false, looked;
      }
      match mute {
        case Some(k) =>
          mutes := mutes[k := mutes[k].(expires := tickSpeed * secs + tick)];
        case None =>
          mutes := mutes + [MuteEntry(ip, tickSpeed * secs + tick)];
      }
      return true, looked;
    }
  }

  /** Searching from i finds what searching from any earlier position finds
      when the entries in between are for other addresses. */
  lemma {:induction false} FindSkips(table: seq<MuteEntry>, ip: string, from: nat, i: nat)
    requires from <= i <= |table|
    requires forall j :: from <= j < i ==> table[j].ip != ip
    ensures FindFrom(table, ip, from) == FindFrom(table, ip, i)
    decreases i - from
  {
    if from < i {
      FindSkips(table, ip, from + 1, i);
    }
  }

  // ---------------------------------------------------------------------
  // Spam filter

  /** ASCII lower-casing, as the case-insensitive search applies it. */
  function Lower(c: char): (r: char)
    ensures ('A' <= c <= 'Z') == (r != c)
    ensures !('A' <= r <= 'Z')
  {
    if 'A' <= c <= 'Z' then (c as int + 32) as char else c
  }

  /** The needle occurs at position i, ignoring ASCII case. */
  predicate MatchesNoCase(msg: string, needle: string, i: nat)
  {
    i + |needle| <= |msg| && forall j :: 0 <= j < |needle| ==> Lower(msg[i + j]) == Lower(needle[j])
  }

  /** A case-insensitive substring search; an empty message contains
      nothing. */
  predicate FindNoCase(msg: string, needle: string)
  {
    exists i :: 0 <= i < |msg| && MatchesNoCase(msg, needle, i)
  }

  // The letters of five decorative alphabets, each in the order
  // q w e r t y u i o p a s d f g h j k l z x c v b n m.

  /** Double-struck letters, with a tab in the place of the letter c. */
  const DOUBLE_STRUCK: seq<char> := [
    '\U{1D562}', '\U{1D568}', '\U{1D556}', '\U{1D563}', '\U{1D565}', '\U{1D56A}', '\U{1D566}', '\U{1D55A}', '\U{1D560}', '\U{1D561}', '\U{1D552}', '\U{1D564}', '\U{1D555}', '\U{1D557}', '\U{1D558}', '\U{1D559}', '\U{1D55B}', '\U{1D55C}', '\U{1D55D}', '\U{1D56B}', '\U{1D569}', '\t', '\U{1D567}', '\U{1D553}', '\U{1D55F}', '\U{1D55E}'
  ]

  /** Double-struck letters with the letter c in its place. */
  const DOUBLE_STRUCK_FIXED: seq<char> := [
    '\U{1D562}', '\U{1D568}', '\U{1D556}', '\U{1D563}', '\U{1D565}', '\U{1D56A}', '\U{1D566}', '\U{1D55A}', '\U{1D560}', '\U{1D561}', '\U{1D552}', '\U{1D564}', '\U{1D555}', '\U{1D557}', '\U{1D558}', '\U{1D559}', '\U{1D55B}', '\U{1D55C}', '\U{1D55D}', '\U{1D56B}', '\U{1D569}', '\U{1D554}', '\U{1D567}', '\U{1D553}', '\U{1D55F}', '\U{1D55E}'
  ]

  const FULLWIDTH: seq<char> := [
    '\U{FF51}', '\U{FF57}', '\U{FF45}', '\U{FF52}', '\U{FF54}', '\U{FF59}', '\U{FF55}', '\U{FF49}', '\U{FF4F}', '\U{FF50}', '\U{FF41}', '\U{FF53}', '\U{FF44}', '\U{FF46}', '\U{FF47}', '\U{FF48}', '\U{FF4A}', '\U{FF4B}', '\U{FF4C}', '\U{FF5A}', '\U{FF58}', '\U{FF43}', '\U{FF56}', '\U{FF42}', '\U{FF4E}', '\U{FF4D}'
  ]

  const NEGATIVE_SQUARED: seq<char> := [
    '\U{1F180}', '\U{1F186}', '\U{1F174}', '\U{1F181}', '\U{1F183}', '\U{1F188}', '\U{1F184}', '\U{1F178}', '\U{1F17E}', '\U{1F17F}', '\U{1F170}', '\U{1F182}', '\U{1F173}', '\U{1F175}', '\U{1F176}', '\U{1F177}', '\U{1F179}', '\U{1F17A}', '\U{1F17B}', '\U{1F189}', '\U{1F187}', '\U{1F172}', '\U{1F185}', '\U{1F171}', '\U{1F17D}', '\U{1F17C}'
  ]

  const SQUARED: seq<char> := [
    '\U{1F140}', '\U{1F146}', '\U{1F134}', '\U{1F141}', '\U{1F143}', '\U{1F148}', '\U{1F144}', '\U{1F138}', '\U{1F13E}', '\U{1F13F}', '\U{1F130}', '\U{1F142}', '\U{1F133}', '\U{1F135}', '\U{1F136}', '\U{1F137}', '\U{1F139}', '\U{1F13A}', '\U{1F13B}', '\U{1F149}', '\U{1F147}', '\U{1F132}', '\U{1F145}', '\U{1F131}', '\U{1F13D}', '\U{1F13C}'
  ]

  const CIRCLED: seq<char> := [
    '\U{24E0}', '\U{24E6}', '\U{24D4}', '\U{24E1}', '\U{24E3}', '\U{24E8}', '\U{24E4}', '\U{24D8}', '\U{24DE}', '\U{24DF}', '\U{24D0}', '\U{24E2}', '\U{24D3}', '\U{24D5}', '\U{24D6}', '\U{24D7}', '\U{24D9}', '\U{24DA}', '\U{24DB}', '\U{24E9}', '\U{24E7}', '\U{24D2}', '\U{24E5}', '\U{24D1}', '\U{24DD}', '\U{24DC}'
  ]

  /** The glyph list of the fancy-alphabet rule. */
  const FANCY_GLYPHS: seq<char> := DOUBLE_STRUCK + FULLWIDTH + NEGATIVE_SQUARED + SQUARED + CIRCLED

  /** The glyph list with the double-struck c in its place. */
  const FANCY_GLYPHS_FIXED: seq<char> := DOUBLE_STRUCK_FIXED + FULLWIDTH + NEGATIVE_SQUARED + SQUARED + CIRCLED

  /** Phrases that count one point each. */
  const NEEDLES: seq<string> := ["krx", "discord.gg", "http", "free", "bot client", "cheat client"]

  /** The number of glyphs that occur in the message. */
  function FancyCount(msg: string, glyphs: seq<char>): (n: nat)
    ensures n <= |glyphs|
  {
    if glyphs == [] then 0
    else (if FindNoCase(msg, [glyphs[0]]) then 1 else 0) + FancyCount(msg, glyphs[1..])
  }

  /** The number of phrases that occur in the message. */
  function NeedleCount(msg: string, needles: seq<string>): (n: nat)
    ensures n <= |needles|
  {
    if needles == [] then 0
    else (if FindNoCase(msg, needles[0]) then 1 else 0) + NeedleCount(msg, needles[1..])
  }

  /** The whisper advertisement: a whisper command with the bot's phrase. */
  predicate WhisperAd(msg: string)
  {
    (FindNoCase(msg, "/whisper") || FindNoCase(msg, "/w")) && FindNoCase(msg, "bro, check out this client")
  }

  /** The spam score: 2 for more than three distinct fancy glyphs, 1 per
      phrase, 2 for the whisper advertisement. */
  function SpamScore(msg: string, glyphs: seq<char>): nat
  {
    (if FancyCount(msg, glyphs) > 3 then 2 else 0) + NeedleCount(msg, NEEDLES) + (if WhisperAd(msg) then 2 else 0)
  }

  /** A chat message is spam when its score reaches 2. */
  predicate CheckSpam(msg: string)
  {
    SpamScore(msg, FANCY_GLYPHS) >= 2
  }

  /** CheckSpam with the corrected glyph list. */
  predicate CheckSpamFixed(msg: string)
  {
    SpamScore(msg, FANCY_GLYPHS_FIXED) >= 2
  }

  /** A message is spam exactly when it shows more than three fancy glyphs,
      carries the whisper advertisement, or names two of the phrases. */
  lemma SpamVerdict(msg: string)
    ensures CheckSpam(msg) <==>
      FancyCount(msg, FANCY_GLYPHS) > 3 || WhisperAd(msg) || NeedleCount(msg, NEEDLES) >= 2
  {
  }

  /** Whatever the search finds in a message it finds in any longer message
      containing it. */
  lemma FindNoCaseInContext(pre: string, msg: string, post: string, needle: string)
    requires FindNoCase(msg, needle)
    ensures FindNoCase(pre + msg + post, needle)
  {
    var i :| 0 <= i < |msg| && MatchesNoCase(msg, needle, i);
    var big := pre + msg + post;
    forall j | 0 <= j < |needle|
      ensures Lower(big[|pre| + i + j]) == Lower(needle[j])
    {
      assert big[|pre| + i + j] == msg[i + j];
    }
    assert MatchesNoCase(big, needle, |pre| + i);
  }

  lemma {:induction false} FancyCountInContext(pre: string, msg: string, post: string, glyphs: seq<char>)
    ensures FancyCount(msg, glyphs) <= FancyCount(pre + msg + post, glyphs)
    decreases |glyphs|
  {
    if glyphs != [] {
      if FindNoCase(msg, [glyphs[0]]) {
        FindNoCaseInContext(pre, msg, post, [glyphs[0]]);
      }
      FancyCountInContext(pre, msg, post, glyphs[1..]);
    }
  }

  lemma {:induction false} NeedleCountInContext(pre: string, msg: string, post: string, needles: seq<string>)
    ensures NeedleCount(msg, needles) <= NeedleCount(pre + msg + post, needles)
    decreases |needles|
  {
    if needles != [] {
      if FindNoCase(msg, needles[0]) {
        FindNoCaseInContext(pre, msg, post, needles[0]);
      }
      NeedleCountInContext(pre, msg, post, needles[1..]);
    }
  }

  /** Adding text around a spam message never makes it acceptable. */
  lemma SpamInContext(pre: string, msg: string, post: string)
    requires CheckSpam(msg)
    ensures CheckSpam(pre + msg + post)
  {
    FancyCountInContext(pre, msg, post, FANCY_GLYPHS);
    NeedleCountInContext(pre, msg, post, NEEDLES);
    if WhisperAd(msg) {
      if FindNoCase(msg, "/whisper") {
        FindNoCaseInContext(pre, msg, post, "/whisper");
      } else {
        FindNoCaseInContext(pre, msg, post, "/w");
      }
      FindNoCaseInContext(pre, msg, post, "bro, check out this client");
    }
  }

  /** The message with every ASCII capital lowered. */
  function LowerAll(msg: string): (r: string)
    ensures |r| == |msg| && forall i :: 0 <= i < |msg| ==> r[i] == Lower(msg[i])
  {
    seq(|msg|, i requires 0 <= i < |msg| => Lower(msg[i]))
  }

  lemma FindNoCaseIgnoresCase(msg: string, needle: string)
    ensures FindNoCase(LowerAll(msg), needle) == FindNoCase(msg, needle)
  {
    var low := LowerAll(msg);
    forall k | 0 <= k < |msg|
      ensures Lower(low[k]) == Lower(msg[k])
    {
    }
    forall i | 0 <= i < |msg|
      ensures MatchesNoCase(low, needle, i) == MatchesNoCase(msg, needle, i)
    {
    }
    if FindNoCase(msg, needle) {
      var i :| 0 <= i < |msg| && MatchesNoCase(msg, needle, i);
      assert MatchesNoCase(low, needle, i);
    }
    if FindNoCase(low, needle) {
      var i :| 0 <= i < |low| && MatchesNoCase(low, needle, i);
      assert MatchesNoCase(msg, needle, i);
    }
  }

  lemma {:induction false} FancyCountIgnoresCase(msg: string, glyphs: seq<char>)
    ensures FancyCount(LowerAll(msg), glyphs) == FancyCount(msg, glyphs)
    decreases |glyphs|
  {
    if glyphs != [] {
      FindNoCaseIgnoresCase(msg, [glyphs[0]]);
      FancyCountIgnoresCase(msg, glyphs[1..]);
    }
  }

  lemma {:induction false} NeedleCountIgnoresCase(msg: string, needles: seq<string>)
    ensures NeedleCount(LowerAll(msg), needles) == NeedleCount(msg, needles)
    decreases |needles|
  {
    if needles != [] {
      FindNoCaseIgnoresCase(msg, needles[0]);
      NeedleCountIgnoresCase(msg, needles[1..]);
    }
  }

  /** The verdict does not depend on ASCII letter case. */
  lemma SpamIgnoresCase(msg: string)
    ensures CheckSpam(LowerAll(msg)) == CheckSpam(msg)
  {
    FancyCountIgnoresCase(msg, FANCY_GLYPHS);
    NeedleCountIgnoresCase(msg, NEEDLES);
    FindNoCaseIgnoresCase(msg, "/whisper");
    FindNoCaseIgnoresCase(msg, "/w");
    FindNoCaseIgnoresCase(msg, "bro, check out this client");
  }

  /** Plain ASCII text. */
  predicate IsAscii(msg: string)
  {
    forall i :: 0 <= i < |msg| ==> msg[i] as int < 128
  }

  lemma {:induction false} FancyCountOfAscii(msg: string, glyphs: seq<char>)
    requires IsAscii(msg)
    requires forall k :: 0 <= k < |glyphs| ==> glyphs[k] as int >= 128
    ensures FancyCount(msg, glyphs) == 0
    decreases |glyphs|
  {
    if glyphs != [] {
      forall i | 0 <= i < |msg|
        ensures !MatchesNoCase(msg, [glyphs[0]], i)
      {
        assert Lower(msg[i]) as int < 128 <= Lower([glyphs[0]][0]) as int;
      }
      FancyCountOfAscii(msg, glyphs[1..]);
    }
  }

  /** With the corrected list, plain ASCII text never counts toward the
      fancy-alphabet rule. */
  lemma FixedGlyphsIgnoreAscii(msg: string)
    requires IsAscii(msg)
    ensures FancyCount(msg, FANCY_GLYPHS_FIXED) == 0
  {
    hide FancyCount;
    FancyCountOfAscii(msg, DOUBLE_STRUCK_FIXED);
    FancyCountOfAscii(msg, FULLWIDTH);
    FancyCountOfAscii(msg, NEGATIVE_SQUARED);
    FancyCountOfAscii(msg, SQUARED);
    FancyCountOfAscii(msg, CIRCLED);
    FancyCountAppend(msg, DOUBLE_STRUCK_FIXED, FULLWIDTH);
    FancyCountAppend(msg, DOUBLE_STRUCK_FIXED + FULLWIDTH, NEGATIVE_SQUARED);
    FancyCountAppend(msg, DOUBLE_STRUCK_FIXED + FULLWIDTH + NEGATIVE_SQUARED, SQUARED);
    FancyCountAppend(msg, DOUBLE_STRUCK_FIXED + FULLWIDTH + NEGATIVE_SQUARED + SQUARED, CIRCLED);
  }

  /** With the corrected list, plain ASCII text is spam only through the
      phrases and the whisper advertisement. */
  lemma FixedSpamOfAscii(msg: string)
    requires IsAscii(msg)
    ensures CheckSpamFixed(msg) <==> NeedleCount(msg, NEEDLES) + (if WhisperAd(msg) then 2 else 0) >= 2
  {
    FixedGlyphsIgnoreAscii(msg);
  }

  /** At least as many glyphs count as the listed positions of glyphs that
      occur (positions strictly increasing). */
  lemma {:induction false} FancyCountAtLeast(msg: string, glyphs: seq<char>, ks: seq<nat>)
    requires forall a, b :: 0 <= a < b < |ks| ==> ks[a] < ks[b]
    requires forall a :: 0 <= a < |ks| ==> ks[a] < |glyphs| && FindNoCase(msg, [glyphs[ks[a]]])
    ensures FancyCount(msg, glyphs) >= |ks|
    decreases |glyphs|
  {
    if ks != [] {
      var tail := if ks[0] == 0 then ks[1..] else ks;
      var shifted := seq(|tail|, a requires 0 <= a < |tail| => tail[a] - 1);
      forall a | 0 <= a < |tail|
        ensures tail[a] >= 1
      {
        if ks[0] != 0 {
          assert ks[a] >= ks[0];
        } else {
          assert ks[a + 1] > ks[0];
        }
      }
      forall a | 0 <= a < |shifted|
        ensures glyphs[1..][shifted[a]] == glyphs[tail[a]]
      {
      }
      FancyCountAtLeast(msg, glyphs[1..], shifted);
    }
  }

  /** The count over a concatenated glyph list is the sum of the counts. */
  lemma {:induction false} FancyCountAppend(msg: string, a: seq<char>, b: seq<char>)
    ensures FancyCount(msg, a + b) == FancyCount(msg, a) + FancyCount(msg, b)
    decreases |a|
  {
    if a == [] {
      assert a + b == b;
    } else {
      assert (a + b)[0] == a[0] && (a + b)[1..] == a[1..] + b;
      FancyCountAppend(msg, a[1..], b);
    }
  }

  /** As written, a tab counts as a fancy glyph. */
  lemma TabCountsAsFancy()
    ensures FancyCount("\t", FANCY_GLYPHS) >= 1
  {
    hide FancyCount;
    assert MatchesNoCase("\t", [DOUBLE_STRUCK[21]], 0);
    FancyCountAtLeast("\t", DOUBLE_STRUCK, [21]);
    FancyCountAppend("\t", DOUBLE_STRUCK, FULLWIDTH);
    FancyCountAppend("\t", DOUBLE_STRUCK + FULLWIDTH, NEGATIVE_SQUARED);
    FancyCountAppend("\t", DOUBLE_STRUCK + FULLWIDTH + NEGATIVE_SQUARED, SQUARED);
    FancyCountAppend("\t", DOUBLE_STRUCK + FULLWIDTH + NEGATIVE_SQUARED + SQUARED, CIRCLED);
  }

  /** As written, three double-struck letters and a tab make a message
      spam. */
  lemma TabMakesSpam()
    ensures CheckSpam(['\U{1D562}', '\U{1D568}', '\U{1D556}', '\t'])
  {
    hide FancyCount;
    var msg := ['\U{1D562}', '\U{1D568}', '\U{1D556}', '\t'];
    assert MatchesNoCase(msg, [DOUBLE_STRUCK[0]], 0);
    assert MatchesNoCase(msg, [DOUBLE_STRUCK[1]], 1);
    assert MatchesNoCase(msg, [DOUBLE_STRUCK[2]], 2);
    assert MatchesNoCase(msg, [DOUBLE_STRUCK[21]], 3);
    FancyCountAtLeast(msg, DOUBLE_STRUCK, [0, 1, 2, 21]);
    FancyCountAppend(msg, DOUBLE_STRUCK, FULLWIDTH);
    FancyCountAppend(msg, DOUBLE_STRUCK + FULLWIDTH, NEGATIVE_SQUARED);
    FancyCountAppend(msg, DOUBLE_STRUCK + FULLWIDTH + NEGATIVE_SQUARED, SQUARED);
    FancyCountAppend(msg, DOUBLE_STRUCK + FULLWIDTH + NEGATIVE_SQUARED + SQUARED, CIRCLED);
  }
}
