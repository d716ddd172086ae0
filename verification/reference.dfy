/** The reference lists: the team members seeded at startup and listed by
    name, and the fixed status and priority option lists. */
module ReferenceLists {
  import opened Schema
  import Collections

  /** The names inserted (if absent) every time the server starts. */
  const SeedNames: seq<string> := [
    "Алексей Иванов",
    "Мария Петрова",
    "Сергей Сидоров",
    "Дмитрий Козлов",
    "Елена Васильева",
    "Анна Смирнова",
    "Иван Петров"
  ]

  function Names(team: seq<TeamMember>): (r: seq<string>)
    ensures |r| == |team|
    ensures forall i :: 0 <= i < |team| ==> r[i] == team[i].name
  {
    seq(|team|, i requires 0 <= i < |team| => team[i].name)
  }

  /** `r` is `s` with at most the team id counter moved forward: what an
      ignored insert leaves behind. */
  predicate OnlyCounterAdvanced(s: Store, r: Store) {
    r == s.(nextMemberId := r.nextMemberId) && r.nextMemberId >= s.nextMemberId
  }

  /** The insert-or-ignore of one seed name: a name already present hits the
      UNIQUE constraint and no row is added; otherwise it is appended with
      the next id. SQLite draws the AUTOINCREMENT id before the constraint
      check, so the model lets an ignored insert use one up; the contract
      promises only that the counter does not go back. Only the team table
      and its counter change. */
  function InsertOrIgnore(s: Store, name: string): (r: Store)
    ensures name in Names(r.team)
    ensures name in Names(s.team) ==> OnlyCounterAdvanced(s, r)
    ensures name !in Names(s.team) ==> Names(r.team) == Names(s.team) + [name]
    ensures name !in Names(s.team) ==> r.team == s.team + [TeamMember(s.nextMemberId, name)]
    ensures r.tasks == s.tasks && r.history == s.history && r.comments == s.comments && r.clock == s.clock
  {
    if name in Names(s.team) then s.(nextMemberId := s.nextMemberId + 1)
    else
      var s' := s.(team := s.team + [TeamMember(s.nextMemberId, name)], nextMemberId := s.nextMemberId + 1);
      assert Names(s'.team) == Names(s.team) + [name];
      s'
  }

  /** Runs the insert-or-ignore for each of `names` in turn. */
  function SeedWith(s: Store, names: seq<string>): (r: Store)
    ensures forall n :: n in Names(r.team) <==> n in Names(s.team) || n in names
    ensures r.tasks == s.tasks && r.history == s.history && r.comments == s.comments && r.clock == s.clock
    decreases |names|
  {
    if |names| == 0 then s
    else
      var s' := InsertOrIgnore(s, names[0]);
      assert forall n :: n in Names(s'.team) <==> n in Names(s.team) || n == names[0] by {
        forall n ensures n in Names(s'.team) <==> n in Names(s.team) || n == names[0] {
          if names[0] !in Names(s.team) {
            assert Names(s'.team) == Names(s.team) + [names[0]];
          }
        }
      }
      assert forall n :: n in names <==> n == names[0] || n in names[1..] by {
        assert names == [names[0]] + names[1..];
      }
      SeedWith(s', names[1..])
  }

  /** The startup seeding of the team table. */
  function SeedTeam(s: Store): (r: Store)
    ensures forall n :: n in Names(r.team) <==> n in Names(s.team) || n in SeedNames
    ensures r.tasks == s.tasks && r.history == s.history && r.comments == s.comments && r.clock == s.clock
  {
    SeedWith(s, SeedNames)
  }

  /** Seeding with names that are all present changes nothing but the team
      id counter. */
  lemma {:induction false} SeedWithPresent(s: Store, names: seq<string>)
    requires forall n :: n in names ==> n in Names(s.team)
    ensures OnlyCounterAdvanced(s, SeedWith(s, names))
    decreases |names|
  {
    if |names| > 0 {
      assert names[0] in names;
      var s' := InsertOrIgnore(s, names[0]);
      assert forall n :: n in names[1..] ==> n in Names(s'.team) by {
        assert forall n :: n in names[1..] ==> n in names;
      }
      SeedWithPresent(s', names[1..]);
    }
  }

  /** Seeding is idempotent: a second startup leaves every table as the
      first left it. */
  lemma SeedIdempotent(s: Store)
    ensures OnlyCounterAdvanced(SeedTeam(s), SeedTeam(SeedTeam(s)))
  {
    SeedWithPresent(SeedTeam(s), SeedNames);
  }

  /** The store after `k` startups, each running the seeding again. */
  function SeedTimes(s: Store, k: nat): (r: Store)
    ensures k == 0 ==> r == s
    ensures k > 0 ==> forall n :: n in Names(r.team) <==> n in Names(s.team) || n in SeedNames
    ensures r.tasks == s.tasks && r.history == s.history && r.comments == s.comments && r.clock == s.clock
  {
    if k == 0 then s else SeedTeam(SeedTimes(s, k - 1))
  }

  /** Seeding any number of times is the same as seeding once. */
  lemma {:induction false} SeedTimesOnce(s: Store, k: nat)
    requires k > 0
    ensures OnlyCounterAdvanced(SeedTeam(s), SeedTimes(s, k))
  {
    if k > 1 {
      SeedTimesOnce(s, k - 1);
      var prior := SeedTimes(s, k - 1);
      SeedWithPresent(prior, SeedNames);
    }
  }

  /** The insert-or-ignore keeps the store valid. */
  lemma InsertOrIgnoreValid(s: Store, name: string)
    requires Valid(s)
    ensures Valid(InsertOrIgnore(s, name))
  {
    var r := InsertOrIgnore(s, name);
    if name in Names(s.team) {
      KeyedLater(s.team, MemberKey, NoStamp, s.nextMemberId, s.clock, r.nextMemberId, s.clock);
    } else {
      KeyedAppend(s.team, MemberKey, NoStamp, s.nextMemberId, s.clock, TeamMember(s.nextMemberId, name), s.clock);
      forall i, j | 0 <= i < j < |r.team|
        ensures r.team[i].name != r.team[j].name
      {
        if j == |s.team| {
          assert s.team[i].name in Names(s.team);
        }
      }
    }
  }

  lemma {:induction false} SeedWithValid(s: Store, names: seq<string>)
    requires Valid(s)
    ensures Valid(SeedWith(s, names))
    decreases |names|
  {
    if |names| > 0 {
      InsertOrIgnoreValid(s, names[0]);
      SeedWithValid(InsertOrIgnore(s, names[0]), names[1..]);
    }
  }

  /** In a table with unique names a present name occurs exactly once. */
  lemma {:induction false} UniqueNameOnce(team: seq<TeamMember>, n: string)
    requires NamesUnique(team)
    ensures multiset(Names(team))[n] == if n in Names(team) then 1 else 0
    decreases |team|
  {
    if |team| > 0 {
      var tail := team[1..];
      assert NamesUnique(tail);
      UniqueNameOnce(tail, n);
      assert Names(team) == [team[0].name] + Names(tail);
      if team[0].name == n {
        assert n !in Names(tail) by {
          forall i | 0 <= i < |tail|
            ensures Names(tail)[i] != n
          {
            assert team[i + 1] == tail[i];
          }
        }
      }
    }
  }

  /** GET /api/team-members: the member names in collation order. */
  function ListTeam(s: Store): (r: seq<string>)
    ensures Collections.NamesSorted(r)
    ensures multiset(r) == multiset(Names(s.team))
  {
    Collections.SortNames(Names(s.team))
  }

  /** After seeding any positive number of times, starting from any valid
      store, the listed team holds each seeded name exactly once, in
      collation order. */
  lemma SeededTeamListed(s: Store, k: nat)
    requires Valid(s) && k > 0
    ensures var r := ListTeam(SeedTimes(s, k));
      && Collections.NamesSorted(r)
      && forall n :: n in SeedNames ==> multiset(r)[n] == 1
  {
    SeedTimesOnce(s, k);
    SeedWithValid(s, SeedNames);
    var team := SeedTeam(s).team;
    assert SeedTimes(s, k).team == team;
    forall n | n in SeedNames
      ensures multiset(ListTeam(SeedTeam(s)))[n] == 1
    {
      UniqueNameOnce(team, n);
    }
  }

  /** One entry of a fixed option list: the stored value and its displayed
      label. The JSON field is `label`, a word Dafny reserves, so the field
      here is named `caption`. */
  datatype Choice = Choice(value: string, caption: string)

  /** GET /api/status-options. */
  const StatusOptions: seq<Choice> := [
    Choice("new", "Новая"),
    Choice("in-progress", "В работе"),
    Choice("completed", "Завершена"),
    Choice("blocked", "Заблокирована")
  ]

  /** GET /api/priority-options. */
  const PriorityOptions: seq<Choice> := [
    Choice("low", "Низкий"),
    Choice("medium", "Средний"),
    Choice("high", "Высокий"),
    Choice("critical", "Критический")
  ]

  function Values(options: seq<Choice>): (r: seq<string>)
    ensures |r| == |options|
    ensures forall i :: 0 <= i < |options| ==> r[i] == options[i].value
  {
    seq(|options|, i requires 0 <= i < |options| => options[i].value)
  }

  /** Each option list offers four distinct values, among them the column
      default of the schema ('new' for status, 'medium' for priority). */
  lemma OptionListsFixed()
    ensures Values(StatusOptions) == ["new", "in-progress", "completed", "blocked"]
    ensures Values(PriorityOptions) == ["low", "medium", "high", "critical"]
    ensures forall i, j :: 0 <= i < j < 4 ==> StatusOptions[i].value != StatusOptions[j].value
    ensures forall i, j :: 0 <= i < j < 4 ==> PriorityOptions[i].value != PriorityOptions[j].value
  {
  }
}
