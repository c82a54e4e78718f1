/**
 * `getTimeRemaining` (boss-tracker-bot.js, lines 80-120): the countdown
 * status of one boss. The clock (`new Date()`) is the parameter `now` and
 * the parse of the respawn text into a `Date` is the parameter `parseDate`,
 * both in milliseconds; `None` from `parseDate` is an invalid date, whose
 * difference with `now` is `NaN`.
 */
module Status {
  import opened Wrappers
  import opened Text
  import opened Records

  /** The CSS-like class of a status. */
  datatype TimeClass = Ready | Soon | Long | Fixed

  /** `{ text, class, totalMs }`; `totalMs` is only set for a running countdown. */
  datatype TimeRemaining = TimeRemaining(text: string, timeClass: TimeClass, totalMs: Option<int>)

  const MsPerSecond := 1000
  const MsPerMinute := 60 * MsPerSecond
  const MsPerHour := 60 * MsPerMinute

  /** Whole hours, minutes and seconds in `diff` milliseconds, each by floor division. */
  function Breakdown(diff: nat): (hms: (nat, nat, nat))
    ensures hms.1 < 60 && hms.2 < 60
    ensures hms.0 * MsPerHour + hms.1 * MsPerMinute + hms.2 * MsPerSecond <= diff
    ensures diff < hms.0 * MsPerHour + hms.1 * MsPerMinute + hms.2 * MsPerSecond + MsPerSecond
  {
    var h := diff / MsPerHour;
    var m := (diff % MsPerHour) / MsPerMinute;
    var s := (diff % MsPerMinute) / MsPerSecond;
    HourRemainder(diff);
    (h, m, s)
  }

  /** The minutes part of the hour remainder leaves the minute remainder. */
  lemma HourRemainder(diff: nat)
    ensures diff % MsPerHour == (diff % MsPerHour) / MsPerMinute * MsPerMinute + diff % MsPerMinute
  {
    var q, r := diff / 3600000, diff % 3600000;
    var m, r2 := r / 60000, r % 60000;
    assert diff == (q * 60 + m) * 60000 + r2;
    MinuteModUnique(diff, q * 60 + m, r2);
  }

  lemma MinuteModUnique(n: int, q: int, r: int)
    requires 0 <= r < 60000 && n == q * 60000 + r
    ensures n % 60000 == r
  {
  }


  /** The breakdown is the only one with minutes and seconds below 60 that brackets `diff`. */
  lemma BreakdownUnique(diff: nat, h: nat, m: nat, s: nat)
    requires m < 60 && s < 60
    requires h * MsPerHour + m * MsPerMinute + s * MsPerSecond <= diff
    requires diff < h * MsPerHour + m * MsPerMinute + s * MsPerSecond + MsPerSecond
    ensures Breakdown(diff) == (h, m, s)
  {
    var (h', m', s') := Breakdown(diff);
    var t := h * 3600 + m * 60 + s;
    var t' := h' * 3600 + m' * 60 + s';
    assert t * 1000 <= diff < t * 1000 + 1000;
    assert t' * 1000 <= diff < t' * 1000 + 1000;
    assert t == t';
    assert h == h' by {
      assert h * 3600 <= t < h * 3600 + 3600;
      assert h' * 3600 <= t < h' * 3600 + 3600;
    }
    assert m == m';
  }

  /** `${hours}h ${minutes}m ${seconds}s`. */
  function CountdownText(diff: nat): string {
    var (h, m, s) := Breakdown(diff);
    NatToString(h) + "h " + NatToString(m) + "m " + NatToString(s) + "s"
  }

  /** Reading the countdown back with `parseInt` gives its hours: the digits stop at the `h`. */
  lemma CountdownHours(diff: nat)
    ensures ParseInt(CountdownText(diff)) == Some(Breakdown(diff).0 as int)
  {
    var (h, m, s) := Breakdown(diff);
    var hs, ms, ss := NatToString(h), NatToString(m), NatToString(s);
    var tail := "h " + ms + "m " + ss + "s";
    assert tail[0] == 'h';
    ParseIntPrefix(h, tail);
    CountdownSplit(hs, ms, ss);
  }

  lemma CountdownSplit(hs: string, ms: string, ss: string)
    ensures hs + "h " + ms + "m " + ss + "s" == hs + ("h " + ms + "m " + ss + "s")
  {
  }

  /** The status of `boss` at instant `now`, checking its branches in the source's order. */
  function GetTimeRemaining(boss: Boss, now: int, parseDate: string -> Option<int>): (r: TimeRemaining)
    // the fixed branch
    ensures boss.bossType == FixedBoss ==> r == TimeRemaining("Fixed Schedule", Fixed, None)
    ensures r.timeClass == Fixed <==> boss.bossType == FixedBoss
    // a regular boss with no respawn time
    ensures boss.bossType == RegularBoss && boss.respawnTime == [] ==> r == TimeRemaining("Unknown", Long, None)
    // a respawn time that does not parse
    ensures boss.bossType == RegularBoss && boss.respawnTime != [] && parseDate(boss.respawnTime).None? ==>
      r == TimeRemaining("Invalid Date", Long, None)
    // ready exactly when the parsed respawn instant is not after now
    ensures r.timeClass == Ready <==>
      boss.bossType == RegularBoss && boss.respawnTime != [] &&
      parseDate(boss.respawnTime).Some? && parseDate(boss.respawnTime).value <= now
    ensures r.timeClass == Ready ==> r.text == "READY NOW" && r.totalMs.None?
    // a countdown exactly when the parsed respawn instant is after now
    ensures r.totalMs.Some? <==>
      boss.bossType == RegularBoss && boss.respawnTime != [] &&
      parseDate(boss.respawnTime).Some? && parseDate(boss.respawnTime).value > now
    ensures r.totalMs.Some? ==>
      r.totalMs.value == parseDate(boss.respawnTime).value - now && r.totalMs.value > 0 &&
      r.text == CountdownText(r.totalMs.value) &&
      (r.timeClass == Soon <==> r.totalMs.value < MsPerHour) &&
      (r.timeClass == Long <==> r.totalMs.value >= MsPerHour)
    ensures r.timeClass == Soon ==> r.totalMs.Some?
  {
    if boss.bossType == RegularBoss && boss.respawnTime != [] then
      match parseDate(boss.respawnTime)
      case None => TimeRemaining("Invalid Date", Long, None)
      case Some(respawn) =>
        var diff := respawn - now;
        if diff <= 0 then TimeRemaining("READY NOW", Ready, None)
        else
          var (hours, _, _) := Breakdown(diff);
          TimeRemaining(CountdownText(diff), if hours < 1 then Soon else Long, Some(diff))
    else if boss.bossType == FixedBoss then TimeRemaining("Fixed Schedule", Fixed, None)
    else TimeRemaining("Unknown", Long, None)
  }
}
