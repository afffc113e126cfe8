/** The gamification HTTP handlers (backend/app/api/routes/gamification.py):
    the stats summary and the badge-check response with its message. */
module GamificationRoutes {
  import opened Collections
  import opened Text
  import opened Calendar
  import opened Habits
  import opened Gamification

  /** A total at which a new level starts. */
  predicate LevelBoundary(x: int)
  {
    x % XpPerLevel == 0
  }

  /** XP still needed for the next level, 100 - total_xp % 100: the distance
      to the next level boundary strictly above the total. */
  function XpToNextLevel(totalXp: int): (r: int)
    ensures 1 <= r <= XpPerLevel
    ensures LevelBoundary(totalXp + r)
    ensures forall x :: totalXp < x < totalXp + r ==> !LevelBoundary(x)
  {
    XpPerLevel - totalXp % XpPerLevel
  }

  /** Reaching the next multiple of 100 raises the level computed from the
      total by one: for a level consistent with the total, spending exactly
      the remaining XP levels up. */
  lemma XpToNextLevelUp(totalXp: int)
    ensures (totalXp + XpToNextLevel(totalXp)) / XpPerLevel == totalXp / XpPerLevel + 1
  {
  }

  datatype StatsResponse = StatsResponse(
    totalXp: int,
    level: int,
    xpToNextLevel: int,
    badges: seq<Badge>,
    badgeCount: nat)

  /** get_stats. */
  function GetStats(stats: Option<UserStats>): (r: StatsResponse)
    ensures r.badgeCount == |r.badges|
    ensures r.badges == GetAllBadges(stats)
    ensures r.totalXp == StatsOrDefault(stats).totalXp && r.level == StatsOrDefault(stats).level
    ensures 1 <= r.xpToNextLevel <= 100 && (r.totalXp + r.xpToNextLevel) % 100 == 0
  {
    var s := StatsOrDefault(stats);
    var badges := GetAllBadges(stats);
    StatsResponse(s.totalXp, s.level, XpToNextLevel(s.totalXp), badges, |badges|)
  }

  datatype CheckResponse = CheckResponse(newBadges: seq<Badge>, message: string)

  const NoNewBadges := "No new badges"

  /** "Awarded N new badge(s)!" */
  function AwardedMessage(n: nat): string
  {
    "Awarded " + NatToString(n) + " new badge(s)!"
  }

  /** The service either returns its list or raises with an error text. */
  datatype ServiceResult = Returned(badges: seq<Badge>) | Raised(error: string)

  /** check_badges: the awarded list with its message, or, when the service
      raises, an empty list and the error text. */
  function CheckBadgesResponse(res: ServiceResult): (r: CheckResponse)
    ensures res.Raised? ==> r.newBadges == [] && r.message == "Error checking badges: " + res.error
    ensures res.Returned? ==> r.newBadges == res.badges
    ensures res.Returned? ==> (r.message == NoNewBadges <==> res.badges == [])
    ensures res.Returned? && res.badges != [] ==>
              StartsWith(r.message, "Awarded ") && EndsWith(r.message, " new badge(s)!")
    ensures res.Returned? && res.badges != [] ==> r.message == AwardedMessage(|res.badges|)
  {
    match res
    case Raised(e) => CheckResponse([], "Error checking badges: " + e)
    case Returned(bs) =>
      if bs == [] then CheckResponse([], NoNewBadges)
      else
        var m := AwardedMessage(|bs|);
        assert m[..8] == "Awarded ";
        assert m != NoNewBadges by { assert m[0] != NoNewBadges[0]; }
        assert m[|m| - 14..] == " new badge(s)!";
        CheckResponse(bs, m)
  }

  /** The count in the message reads back as the number of new badges. */
  lemma AwardedMessageCount(n: nat)
    ensures var m := AwardedMessage(n);
            var digits := m[8..|m| - 14];
            AllDigits(digits) && DecimalValue(digits) == n
  {
    var m := AwardedMessage(n);
    assert m[8..|m| - 14] == NatToString(n);
    NatToStringValue(n);
  }

  /** The message for a non-empty award names, in decimal between
      "Awarded " and " new badge(s)!", how many badges were returned. */
  lemma CheckBadgesMessageCount(res: ServiceResult)
    requires res.Returned? && res.badges != []
    ensures var m := CheckBadgesResponse(res).message;
            && |m| > 22
            && m[..8] == "Awarded " && m[|m| - 14..] == " new badge(s)!"
            && AllDigits(m[8..|m| - 14]) && DecimalValue(m[8..|m| - 14]) == |res.badges|
  {
    AwardedMessageCount(|res.badges|);
  }
}
