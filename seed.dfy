// The database seed: six administrator accounts, computers PC-01 to PC-15,
// and teams A and B for five games. Every write is an upsert keyed by a
// unique column, so running the seed again adds nothing new.
module Seed {
  import opened Text
  import opened Db
  import opened ReservationCalendar

  /* ---------- administrators ---------- */

  datatype AdminAccount = AdminAccount(email: string, name: string, password: string)

  const ADMINS: seq<AdminAccount> := [
    AdminAccount("valadmin@udemesports", "Valorant", "ChangeMe#1"),
    AdminAccount("loladmin@udemesports", "League of Legends", "ChangeMe#2"),
    AdminAccount("overwatchadmin@udemesports", "Overwatch", "ChangeMe#3"),
    AdminAccount("rladmin@udemesports", "Rocket League", "ChangeMe#4"),
    AdminAccount("president@udemesports", "President", "ChangeMe#5"),
    AdminAccount("scheduler@udemesports", "Scheduler", "ChangeMe#6")
  ]

  /** The six accounts have six different emails, so no upsert of one
      overwrites another. */
  lemma AdminEmailsDistinct()
    ensures forall i, j :: 0 <= i < j < |ADMINS| ==> ADMINS[i].email != ADMINS[j].email
  {
    forall i, j | 0 <= i < j < |ADMINS| ensures ADMINS[i].email != ADMINS[j].email {
      assert ADMINS[i].email[0] != ADMINS[j].email[0];
    }
  }

  /* ---------- computers ---------- */

  /** `String(n).padStart(2, '0')`. */
  function PadStart2(s: string): (r: string)
    ensures |s| >= 2 ==> r == s
    ensures |s| < 2 ==> |r| == 2
    ensures r[|r| - |s|..] == s
    ensures forall i :: 0 <= i < |r| - |s| ==> r[i] == '0'
  {
    if |s| == 0 then "00" else if |s| == 1 then "0" + s else s
  }

  /** The label of the (i+1)-th seeded computer: `PC-${pad(i + 1)}`. */
  function SeedLabel(i: nat): (l: string)
    ensures |l| >= 5 && l[..3] == "PC-"
  {
    "PC-" + PadStart2(NatToString(i + 1))
  }

  /** `Array.from({ length: 15 }, …)`. */
  function SeedLabels(): (ls: seq<string>)
    ensures |ls| == 15 && forall i :: 0 <= i < 15 ==> ls[i] == SeedLabel(i)
  {
    seq(15, i requires 0 <= i < 15 => SeedLabel(i))
  }

  lemma {:induction false} ZerosValue(z: string)
    requires forall i :: 0 <= i < |z| ==> z[i] == '0'
    ensures AllDigits(z) && DigitsValue(z) == 0
  {
    if z != [] {
      ZerosValue(z[..|z| - 1]);
    }
  }

  /** Leading zeros do not change what parseInt reads. */
  lemma {:induction false} LeadingZeros(z: string, d: string)
    requires forall i :: 0 <= i < |z| ==> z[i] == '0'
    requires AllDigits(d)
    ensures AllDigits(z + d) && DigitsValue(z + d) == DigitsValue(d)
  {
    ZerosValue(z);
    if d == [] {
      assert z + d == z;
    } else {
      var s := z + d;
      assert s[..|s| - 1] == z + d[..|d| - 1];
      LeadingZeros(z, d[..|d| - 1]);
    }
  }

  /** The summariser reads each seeded label back as its own number. */
  lemma SeedLabelNumber(i: nat)
    ensures TrailingNumber(SeedLabel(i)) == Some(i + 1)
  {
    var n := NatToString(i + 1);
    var padded := PadStart2(n);
    var z := padded[..|padded| - |n|];
    assert padded == z + n;
    LeadingZeros(z, n);
    NatToStringRoundTrip(i + 1);
    TrailingNumberOf("PC-", padded, "");
    assert "PC-" + padded + "" == SeedLabel(i);
  }

  /** The fifteen labels are pairwise different. */
  lemma SeedLabelsDistinct()
    ensures forall i, j :: 0 <= i < j < 15 ==> SeedLabels()[i] != SeedLabels()[j]
  {
    forall i, j | 0 <= i < j < 15 ensures SeedLabels()[i] != SeedLabels()[j] {
      SeedLabelNumber(i);
      SeedLabelNumber(j);
    }
  }

  lemma FirstAndLastSeedLabels()
    ensures SeedLabel(0) == "PC-01" && SeedLabel(14) == "PC-15"
  {
    var one := NatToString(1);
    assert one == "1";
    assert PadStart2(one) == "01";
    var fifteen := NatToString(15);
    assert fifteen == one + [DigitChar(5)];
    assert fifteen == "15";
    assert PadStart2(fifteen) == "15";
  }

  /** A booking of every seeded computer is shown as "PCs 1-15". */
  lemma SeedLabelsSummary()
    ensures SummaryOf(SeedLabels()) == "PCs 1-15"
  {
    SeedNumbers();
    SummaryOfConsecutive(SeedLabels(), 1, 15);
    RenderFifteen();
  }

  lemma SeedNumbers()
    ensures AllParse(SeedLabels()) && Numbers(SeedLabels()) == Span(1, 15)
  {
    var ls := SeedLabels();
    forall i | 0 <= i < 15 ensures TrailingNumber(ls[i]) == Some(i + 1) {
      SeedLabelNumber(i);
    }
    assert AllParse(ls);
    assert Numbers(ls) == Span(1, 15);
  }

  lemma RenderFifteen()
    ensures "PCs " + NatToString(1) + "-" + NatToString(15) == "PCs 1-15"
  {
    assert NatToString(1) == "1";
    assert NatToString(15) == NatToString(1) + [DigitChar(5)];
  }

  /* ---------- teams ---------- */

  const GAMES: seq<string> := ["Valorant", "League of Legends", "Rocket League", "Overwatch", "CS2"]
  const LETTERS: seq<string> := ["A", "B"]

  /** `.replace(/\s+/g, '-')`: every maximal run of white space becomes one
      dash. */
  function DashWhitespace(s: string): (r: string)
    ensures forall i :: 0 <= i < |r| ==> !IsSpace(r[i])
    ensures (forall i :: 0 <= i < |s| ==> !IsSpace(s[i])) ==> r == s
    decreases |s|
  {
    if s == [] then []
    else if IsSpace(s[0]) then
      var t := TrimStart(s);
      assert |t| < |s|;
      "-" + DashWhitespace(t)
    else [s[0]] + DashWhitespace(s[1..])
  }

  /** A word, a run of white space, and the rest: the run becomes a dash. */
  lemma {:induction false} DashWhitespaceSplit(a: string, w: string, b: string)
    requires forall i :: 0 <= i < |a| ==> !IsSpace(a[i])
    requires w != [] && forall i :: 0 <= i < |w| ==> IsSpace(w[i])
    requires b == [] || !IsSpace(b[0])
    ensures DashWhitespace(a + w + b) == a + "-" + DashWhitespace(b)
  {
    if a == [] {
      assert a + w + b == w + b;
      DashLeadingRun(w, b);
      assert a + "-" + DashWhitespace(b) == "-" + DashWhitespace(b);
    } else {
      DashWhitespaceSplit(a[1..], w, b);
      PeelHead(a, w, b);
      PeelHead(a, "-", DashWhitespace(b));
      DashKeepsWordChar(a[0], a[1..] + w + b);
    }
  }

  /** A leading run of white space becomes one dash. */
  lemma DashLeadingRun(w: string, b: string)
    requires w != [] && forall i :: 0 <= i < |w| ==> IsSpace(w[i])
    requires b == [] || !IsSpace(b[0])
    ensures DashWhitespace(w + b) == "-" + DashWhitespace(b)
  {
    assert (w + b)[0] == w[0];
    TrimStartOfPrefix(w, b);
  }

  /** A character that is not white space is copied. */
  lemma DashKeepsWordChar(c: char, rest: string)
    requires !IsSpace(c)
    ensures DashWhitespace([c] + rest) == [c] + DashWhitespace(rest)
  {
    assert ([c] + rest)[0] == c;
    assert ([c] + rest)[1..] == rest;
  }

  lemma PeelHead(a: string, x: string, y: string)
    requires a != []
    ensures a + x + y == [a[0]] + (a[1..] + x + y)
  {
    assert a == [a[0]] + a[1..];
  }

  lemma {:induction false} TrimStartOfPrefix(w: string, b: string)
    requires forall i :: 0 <= i < |w| ==> IsSpace(w[i])
    requires b == [] || !IsSpace(b[0])
    ensures TrimStart(w + b) == b
  {
    if w != [] {
      assert (w + b)[1..] == w[1..] + b;
      TrimStartOfPrefix(w[1..], b);
    } else {
      assert w + b == b;
    }
  }

  /** `team-${slug(game)}-${letter.toLowerCase()}`. */
  function TeamIdFor(game: string, letter: string): (id: string)
    ensures |id| >= 6 + |letter| && id[..5] == "team-" && id[|id| - |letter|..] == ToLower(letter)
  {
    TeamIdParts(DashWhitespace(ToLower(game)), ToLower(letter));
    "team-" + DashWhitespace(ToLower(game)) + "-" + ToLower(letter)
  }

  lemma TeamIdParts(slug: string, tail: string)
    ensures var id := "team-" + slug + "-" + tail;
              |id| >= 6 + |tail| && id[..5] == "team-" && id[|id| - |tail|..] == tail
  {
    ConcatEnds("team-", slug + "-", tail);
    assert "team-" + slug + "-" + tail == "team-" + (slug + "-") + tail;
  }

  function SeedTeam(game: string, letter: string): (t: Team)
    ensures t.id == TeamIdFor(game, letter) && t.gameTitle == game
    ensures |t.name| == |game| + 1 + |letter| && t.name[..|game|] == game && t.name[|game| + 1..] == letter
    ensures t.name[|game|] == ' '
  {
    ConcatEnds(game, " ", letter);
    Team(TeamIdFor(game, letter), game + " " + letter, game)
  }

  /** `games.flatMap(game => letters.map(letter => …))`: game by game, A
      before B. */
  function SeedTeams(): (ts: seq<Team>)
    ensures |ts| == |GAMES| * |LETTERS|
    ensures forall g, l :: 0 <= g < |GAMES| && 0 <= l < |LETTERS| ==> ts[2 * g + l] == SeedTeam(GAMES[g], LETTERS[l])
  {
    var ts := seq(10, k requires 0 <= k < 10 => SeedTeam(GAMES[k / 2], LETTERS[k % 2]));
    forall g, l | 0 <= g < 5 && 0 <= l < 2 ensures ts[2 * g + l] == SeedTeam(GAMES[g], LETTERS[l]) {
      assert (2 * g + l) / 2 == g && (2 * g + l) % 2 == l;
    }
    ts
  }

  /* ---------- the seed run ---------- */

  /** An ADMIN account with this email and password hash exists. */
  predicate HasAdmin(users: seq<User>, email: string, hash: string) {
    exists u :: u in users && u.email == email && u.role == ADMIN && u.passwordHash == hash
  }

  predicate HasComputer(computers: seq<Computer>, pcLabel: string) {
    exists c :: c in computers && c.pcLabel == pcLabel
  }

  /** One admin upsert keeps the admins already seeded: their emails
      differ from the one just written. */
  lemma AdminStep(before: seq<User>, after: seq<User>, admins: seq<AdminAccount>, hashes: seq<string>, i: nat)
    requires i < |admins| <= |hashes|
    requires forall j, k :: 0 <= j < k < |admins| ==> admins[j].email != admins[k].email
    requires forall j :: 0 <= j < i ==> HasAdmin(before, admins[j].email, hashes[j])
    requires forall u :: u in before && u.email != admins[i].email ==> u in after
    requires HasAdmin(after, admins[i].email, hashes[i])
    ensures forall j :: 0 <= j < i + 1 ==> HasAdmin(after, admins[j].email, hashes[j])
  {
    forall j | 0 <= j < i ensures HasAdmin(after, admins[j].email, hashes[j]) {
      var u :| u in before && u.email == admins[j].email && u.role == ADMIN && u.passwordHash == hashes[j];
      assert u in after;
    }
  }

  /** A user whose email is no admin's survives every upsert. */
  lemma KeptAcrossStep(start: seq<User>, before: seq<User>, after: seq<User>, admins: seq<AdminAccount>, i: nat)
    requires i < |admins|
    requires forall u :: u in start && (forall a :: a in admins ==> a.email != u.email) ==> u in before
    requires forall u :: u in before && u.email != admins[i].email ==> u in after
    ensures forall u :: u in start && (forall a :: a in admins ==> a.email != u.email) ==> u in after
  {
    forall u | u in start && (forall a :: a in admins ==> a.email != u.email) ensures u in after {
      assert admins[i] in admins;
    }
  }

  /** An ADMIN written by one of the first n admin upserts: its email and
      hash are those of one of them. */
  predicate SeededAdmin(u: User, admins: seq<AdminAccount>, hashes: seq<string>, n: nat) {
    && u.role == ADMIN
    && exists j :: 0 <= j < n && j < |admins| && j < |hashes| && u.email == admins[j].email && u.passwordHash == hashes[j]
  }

  /** A user added or changed by the first i+1 upserts was written by one
      of them. */
  lemma AddedAreAdmins(start: seq<User>, before: seq<User>, after: seq<User>,
                       admins: seq<AdminAccount>, hashes: seq<string>, i: nat)
    requires i < |admins| && i < |hashes|
    requires forall u :: u in before && u !in start ==> SeededAdmin(u, admins, hashes, i)
    requires forall u :: u in after && u !in before ==>
               u.email == admins[i].email && u.role == ADMIN && u.passwordHash == hashes[i]
    ensures forall u :: u in after && u !in start ==> SeededAdmin(u, admins, hashes, i + 1)
  {
    forall u | u in after && u !in start ensures SeededAdmin(u, admins, hashes, i + 1) {
      if u !in before {
        assert u.email == admins[i].email && u.passwordHash == hashes[i];
      } else {
        var j :| 0 <= j < i && j < |admins| && j < |hashes| &&
          u.email == admins[j].email && u.passwordHash == hashes[j];
      }
    }
  }

  /** The six upsertAdmin calls, in order. */
  method SeedAdmins(db: Database, hashes: seq<string>)
    requires db.Valid() && |hashes| == |ADMINS|
    modifies db`users, db`nextUserId
    ensures db.Valid()
    ensures forall i :: 0 <= i < |ADMINS| ==> HasAdmin(db.users, ADMINS[i].email, hashes[i])
    ensures forall u :: u in old(db.users) && (forall a :: a in ADMINS ==> a.email != u.email) ==> u in db.users
    ensures forall u :: u in db.users && u !in old(db.users) ==> SeededAdmin(u, ADMINS, hashes, |ADMINS|)
  {
    AdminEmailsDistinct();
    var i := 0;
    while i < |ADMINS|
      invariant 0 <= i <= |ADMINS| && db.Valid()
      invariant forall j :: 0 <= j < i ==> HasAdmin(db.users, ADMINS[j].email, hashes[j])
      invariant forall u :: u in old(db.users) && (forall a :: a in ADMINS ==> a.email != u.email) ==> u in db.users
      invariant forall u :: u in db.users && u !in old(db.users) ==> SeededAdmin(u, ADMINS, hashes, i)
    {
      var admin := ADMINS[i];
      ghost var before := db.users;
      db.UpsertAdmin(admin.email, admin.name, hashes[i]);
      AdminStep(before, db.users, ADMINS, hashes, i);
      KeptAcrossStep(old(db.users), before, db.users, ADMINS, i);
      AddedAreAdmins(old(db.users), before, db.users, ADMINS, hashes, i);
      i := i + 1;
    }
  }

  /** One computer upsert per label: afterwards every label names a
      computer, no computer was removed or changed, and nothing was added
      when every label was already there. */
  method SeedComputers(db: Database, labels: seq<string>)
    requires db.Valid()
    modifies db`computers, db`nextComputerId
    ensures db.Valid()
    ensures forall l :: l in labels ==> HasComputer(db.computers, l)
    ensures old(db.computers) <= db.computers
    ensures (forall l :: l in labels ==> HasComputer(old(db.computers), l)) ==> db.computers == old(db.computers)
    ensures forall c :: c in db.computers && c !in old(db.computers) ==> c.pcLabel in labels && c.isActive
  {
    var k := 0;
    while k < |labels|
      invariant 0 <= k <= |labels| && db.Valid()
      invariant forall j :: 0 <= j < k ==> HasComputer(db.computers, labels[j])
      invariant old(db.computers) <= db.computers
      invariant (forall l :: l in labels ==> HasComputer(old(db.computers), l)) ==> db.computers == old(db.computers)
      invariant forall c :: c in db.computers && c !in old(db.computers) ==> c.pcLabel in labels && c.isActive
    {
      ghost var before := db.computers;
      db.UpsertComputer(labels[k]);
      assert labels[k] in labels;
      forall j | 0 <= j < k + 1 ensures HasComputer(db.computers, labels[j]) {
        if j < k {
          assert HasComputer(before, labels[j]);
          var c :| c in before && c.pcLabel == labels[j];
          assert c in db.computers;
        }
      }
      if forall l :: l in labels ==> HasComputer(old(db.computers), l) {
        assert labels[k] in labels;
      }
      k := k + 1;
    }
    forall l | l in labels ensures HasComputer(db.computers, l) {
      var j :| 0 <= j < |labels| && labels[j] == l;
    }
  }

  /** One team upsert per team, keyed by id: afterwards every id names a
      team, no team was removed or changed, and nothing was added when every
      id was already there. */
  method SeedTeamRows(db: Database, teams: seq<Team>)
    requires db.Valid()
    modifies db`teams
    ensures db.Valid()
    ensures forall t :: t in teams ==> HasTeam(db.teams, t.id)
    ensures old(db.teams) <= db.teams
    ensures (forall t :: t in teams ==> HasTeam(old(db.teams), t.id)) ==> db.teams == old(db.teams)
    ensures forall t :: t in db.teams && t !in old(db.teams) ==> t in teams
  {
    var n := 0;
    while n < |teams|
      invariant 0 <= n <= |teams| && db.Valid()
      invariant forall j :: 0 <= j < n ==> HasTeam(db.teams, teams[j].id)
      invariant old(db.teams) <= db.teams
      invariant (forall t :: t in teams ==> HasTeam(old(db.teams), t.id)) ==> db.teams == old(db.teams)
      invariant forall t :: t in db.teams && t !in old(db.teams) ==> t in teams
    {
      ghost var before := db.teams;
      db.UpsertTeam(teams[n]);
      assert teams[n] in teams;
      forall j | 0 <= j < n + 1 ensures HasTeam(db.teams, teams[j].id) {
        if j < n {
          assert HasTeam(before, teams[j].id);
          var u :| u in before && u.id == teams[j].id;
          assert u in db.teams;
        }
      }
      if forall t :: t in teams ==> HasTeam(old(db.teams), t.id) {
        assert teams[n] in teams;
      }
      n := n + 1;
    }
    forall t | t in teams ensures HasTeam(db.teams, t.id) {
      var j :| 0 <= j < |teams| && teams[j] == t;
    }
  }

  /** main(). `hashes[i]` is the bcrypt hash of ADMINS[i].password. */
  method Seed(db: Database, hashes: seq<string>)
    requires db.Valid() && |hashes| == |ADMINS|
    modifies db`users, db`nextUserId, db`computers, db`nextComputerId, db`teams
    ensures db.Valid()
    ensures forall i :: 0 <= i < |ADMINS| ==> HasAdmin(db.users, ADMINS[i].email, hashes[i])
    ensures forall u :: u in old(db.users) && (forall a :: a in ADMINS ==> a.email != u.email) ==> u in db.users
    ensures forall l :: l in SeedLabels() ==> HasComputer(db.computers, l)
    ensures forall t :: t in SeedTeams() ==> HasTeam(db.teams, t.id)
    ensures old(db.computers) <= db.computers && old(db.teams) <= db.teams
    ensures (forall l :: l in SeedLabels() ==> HasComputer(old(db.computers), l)) ==> db.computers == old(db.computers)
    ensures (forall t :: t in SeedTeams() ==> HasTeam(old(db.teams), t.id)) ==> db.teams == old(db.teams)
    ensures forall u :: u in db.users && u !in old(db.users) ==> SeededAdmin(u, ADMINS, hashes, |ADMINS|)
    ensures forall c :: c in db.computers && c !in old(db.computers) ==> c.pcLabel in SeedLabels() && c.isActive
    ensures forall t :: t in db.teams && t !in old(db.teams) ==> t in SeedTeams()
  {
    SeedAdmins(db, hashes);
    SeedComputers(db, SeedLabels());
    SeedTeamRows(db, SeedTeams());
  }
}
