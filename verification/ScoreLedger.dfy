/** The score-events endpoint: each event is credited at most once, to its day and its week. */
module ScoreLedger {
  import opened Wrappers

  type EventId = nat
  type Player = nat
  type Body = nat
  /** Days since 1970-01-01, a Thursday. */
  type Day = int

  /** A valid event; `body` is its canonical JSON, `day` the local day of occurredAt. */
  datatype Event = Event(id: EventId, body: Body, player: Player, day: Day, score: nat)

  datatype Stored = Stored(body: Body, credited: bool)

  /** A request: refused for its path or key, or with the event its body states, if that is valid, and the faults to inject. */
  datatype Request =
    | Refused(status: nat)
    | Accepted(hangs: bool, forced: Option<nat>, event: Option<Event>, fails: bool, today: Day)

  datatype Reply = Status(code: nat) | Duplicate | Conflict | Hang | Chaos | Late | Credited

  /** No fault is injected before the event is looked up. */
  ghost predicate Reaches(r: Request, e: Event) {
    r.Accepted? && !r.hangs && r.forced == None && r.event == Some(e)
  }

  /** getUTCDay: Sunday is 0. */
  function Weekday(day: Day): nat { (day + 4) % 7 }

  /** Monday of the day's week. */
  function Week(day: Day): Day { day - (Weekday(day) + 6) % 7 }

  /** Weeks are the seven days from a Monday on. */
  lemma WeekExact(day: Day, monday: Day)
    requires Weekday(monday) == 1
    ensures Weekday(Week(day)) == 1
    ensures Week(day) == monday <==> monday <= day < monday + 7
    ensures Weekday(0) == 4 && Weekday(day + 1) == if Weekday(day) == 6 then 0 else Weekday(day) + 1
  {
  }

  // ------------------------------------------------------------------------------------------------ the boards

  type Board = map<Day, map<Player, nat>>

  function Points(board: Board, period: Day, player: Player): nat {
    if period in board && player in board[period] then board[period][player] else 0
  }

  function CreditTo(board: Board, period: Day, player: Player, score: nat): Board {
    var scores := if period in board then board[period] else map[];
    board[period := scores[player := (if player in scores then scores[player] else 0) + score]]
  }

  /** The points of the credited events of a player on a day. */
  function DayTotal(credited: seq<Event>, day: Day, player: Player): nat {
    if credited == [] then 0
    else
      var last := credited[|credited| - 1];
      DayTotal(credited[..|credited| - 1], day, player) + if last.day == day && last.player == player then last.score else 0
  }

  /** ... and in a week. */
  function WeekTotal(credited: seq<Event>, week: Day, player: Player): nat {
    if credited == [] then 0
    else
      var last := credited[|credited| - 1];
      WeekTotal(credited[..|credited| - 1], week, player)
        + if Week(last.day) == week && last.player == player then last.score else 0
  }

  class Simulator {
    var events: map<EventId, Stored>
    var daily: Board
    var weekly: Board
    ghost var credited: seq<Event>
    const dayCutoff: bool

    constructor (dayCutoff: bool)
      ensures Valid() && this.dayCutoff == dayCutoff && credited == []
    {
      this.dayCutoff := dayCutoff;
      events, daily, weekly, credited := map[], map[], map[], [];
    }

    ghost predicate Valid()
      reads this
    {
      && (forall i, j | 0 <= i < j < |credited| :: credited[i].id != credited[j].id)
      && (forall i | 0 <= i < |credited| :: credited[i].id in events && events[credited[i].id] == Stored(credited[i].body, true))
      && (forall id | id in events && events[id].credited :: exists i :: 0 <= i < |credited| && credited[i].id == id)
      && (forall day, player :: Points(daily, day, player) == DayTotal(credited, day, player))
      && (forall week, player :: Points(weekly, week, player) == WeekTotal(credited, week, player))
    }

    /** credit(daily, ...), credit(weekly, ...): the player's entry of the day and of its week grow by the score, no other does. */
    method Credit(e: Event)
      modifies this`daily, this`weekly
      ensures forall day, player ::
        Points(daily, day, player) == Points(old(daily), day, player) + if day == e.day && player == e.player then e.score else 0
      ensures forall week, player ::
        Points(weekly, week, player)
          == Points(old(weekly), week, player) + if week <= e.day < week + 7 && Weekday(week) == 1 && player == e.player then e.score else 0
    {
      forall week ensures week == Week(e.day) <==> Weekday(week) == 1 && week <= e.day < week + 7 {
        if Weekday(week) == 1 {
          WeekExact(e.day, week);
        }
        WeekExact(e.day, Week(e.day));
      }
      daily := CreditTo(daily, e.day, e.player, e.score);
      weekly := CreditTo(weekly, Week(e.day), e.player, e.score);
    }

    /** A new event is stored, and credited unless its day is over. */
    method Store(e: Event, late: bool)
      requires Valid() && e.id !in events
      modifies this
      ensures Valid()
      ensures events == old(events)[e.id := Stored(e.body, !late)]
      ensures credited == old(credited) + if late then [] else [e]
      ensures late ==> daily == old(daily) && weekly == old(weekly)
    {
      events := events[e.id := Stored(e.body, !late)];
      if late {
        return;
      }
      Credit(e);
      CreditSums(old(credited), e, old(daily), daily, old(weekly), weekly);
      credited := credited + [e];
      assert credited[|credited| - 1].id == e.id;
      forall id | id in events && events[id].credited ensures exists i :: 0 <= i < |credited| && credited[i].id == id {
        if id != e.id {
          var i :| 0 <= i < |old(credited)| && old(credited)[i].id == id;
          assert credited[i].id == id;
        }
      }
    }

    /**
     * One request, and when each reply is given. Only a new, valid event of a day that is not over is credited, and every
     * request keeps the boards equal to the sums of the credited events. A known event changes nothing, whatever its body.
     */
    method Handle(r: Request) returns (reply: Reply)
      requires Valid()
      modifies this
      ensures Valid()
      ensures reply == Hang <==> r.Accepted? && r.hangs
      ensures forall code :: reply == Status(code) <==>
        if r.Refused? then code == r.status
        else !r.hangs && if r.forced.Some? then code == r.forced.value else r.event.None? && code == 400
      ensures reply == Duplicate <==>
        exists e :: Reaches(r, e) && e.id in old(events) && old(events)[e.id].body == e.body
      ensures reply == Conflict <==>
        exists e :: Reaches(r, e) && e.id in old(events) && old(events)[e.id].body != e.body
      ensures reply == Chaos <==> exists e :: Reaches(r, e) && e.id !in old(events) && r.fails
      ensures reply == Late <==>
        exists e :: Reaches(r, e) && e.id !in old(events) && !r.fails && dayCutoff && e.day < r.today
      ensures reply == Credited <==>
        exists e :: Reaches(r, e) && e.id !in old(events) && !r.fails && !(dayCutoff && e.day < r.today)
      ensures reply == Credited ==> credited == old(credited) + [r.event.value]
      ensures reply != Credited ==> credited == old(credited) && daily == old(daily) && weekly == old(weekly)
      ensures forall id | id in old(events) :: id in events && events[id] == old(events)[id]
      ensures reply in {Credited, Late} ==>
        events == old(events)[r.event.value.id := Stored(r.event.value.body, reply == Credited)]
      ensures reply !in {Credited, Late} ==> events == old(events)
    {
      if r.Refused? {
        return Status(r.status);
      }
      if r.hangs {
        return Hang;
      }
      if r.forced.Some? {
        return Status(r.forced.value);
      }
      if r.event.None? {
        return Status(400);
      }
      var e := r.event.value;
      assert forall e' :: Reaches(r, e') <==> e' == e;
      if e.id in events {
        if events[e.id].body != e.body {
          return Conflict;
        }
        return Duplicate;
      }
      if r.fails {
        return Chaos;
      }
      var late := dayCutoff && e.day < r.today;
      Store(e, late);
      reply := if late then Late else Credited;
    }
  }

  /** Boards that are the sums of the credited events still are after one more event raised its entries. */
  lemma CreditSums(credited: seq<Event>, e: Event, daily: Board, daily': Board, weekly: Board, weekly': Board)
    requires forall day, player :: Points(daily, day, player) == DayTotal(credited, day, player)
    requires forall week, player :: Points(weekly, week, player) == WeekTotal(credited, week, player)
    requires forall day, player ::
      Points(daily', day, player) == Points(daily, day, player) + if day == e.day && player == e.player then e.score else 0
    requires forall week, player ::
      Points(weekly', week, player)
        == Points(weekly, week, player) + if week <= e.day < week + 7 && Weekday(week) == 1 && player == e.player then e.score else 0
    ensures forall day, player :: Points(daily', day, player) == DayTotal(credited + [e], day, player)
    ensures forall week, player :: Points(weekly', week, player) == WeekTotal(credited + [e], week, player)
  {
    assert (credited + [e])[..|credited|] == credited;
    forall week, player ensures Points(weekly', week, player) == WeekTotal(credited + [e], week, player) {
      assert Points(weekly, week, player) == WeekTotal(credited, week, player);
      WeekExact(e.day, Week(e.day));
      if Weekday(week) == 1 {
        WeekExact(e.day, week);
      }
    }
    forall day, player ensures Points(daily', day, player) == DayTotal(credited + [e], day, player) {
      assert Points(daily, day, player) == DayTotal(credited, day, player);
    }
  }

  // ------------------------------------------------------------------------------------------------ weeks and days

  function SevenDays(credited: seq<Event>, monday: Day, player: Player, n: nat): nat {
    if n == 0 then 0 else SevenDays(credited, monday, player, n - 1) + DayTotal(credited, monday + n - 1, player)
  }

  /** One more event adds its score to exactly one of the first n days from Monday on, if it falls into them. */
  lemma {:induction false} DaysStep(credited: seq<Event>, e: Event, monday: Day, player: Player, n: nat)
    ensures SevenDays(credited + [e], monday, player, n)
         == SevenDays(credited, monday, player, n) + if monday <= e.day < monday + n && e.player == player then e.score else 0
  {
    if n > 0 {
      DaysStep(credited, e, monday, player, n - 1);
      assert (credited + [e])[..|credited|] == credited;
    }
  }

  lemma {:induction false} NoDays(monday: Day, player: Player, n: nat)
    ensures SevenDays([], monday, player, n) == 0
  {
    if n > 0 {
      NoDays(monday, player, n - 1);
    }
  }

  /** A week's points are the sum of the points of its seven days. */
  lemma {:induction false} WeekIsSevenDays(credited: seq<Event>, monday: Day, player: Player)
    requires Weekday(monday) == 1
    ensures WeekTotal(credited, monday, player) == SevenDays(credited, monday, player, 7)
  {
    if credited == [] {
      NoDays(monday, player, 7);
    } else {
      var n := |credited| - 1;
      WeekIsSevenDays(credited[..n], monday, player);
      WeekStep(credited[..n], credited[n], monday, player);
      DaysStep(credited[..n], credited[n], monday, player, 7);
      assert credited == credited[..n] + [credited[n]];
    }
  }

  lemma WeekStep(credited: seq<Event>, e: Event, monday: Day, player: Player)
    requires Weekday(monday) == 1
    ensures WeekTotal(credited + [e], monday, player)
         == WeekTotal(credited, monday, player) + if monday <= e.day < monday + 7 && e.player == player then e.score else 0
  {
    assert (credited + [e])[..|credited|] == credited;
    WeekExact(e.day, monday);
  }

  function SevenPoints(board: Board, monday: Day, player: Player, n: nat): nat {
    if n == 0 then 0 else SevenPoints(board, monday, player, n - 1) + Points(board, monday + n - 1, player)
  }

  lemma {:induction false} PointsAreTotals(board: Board, credited: seq<Event>, monday: Day, player: Player, n: nat)
    requires forall day :: Points(board, day, player) == DayTotal(credited, day, player)
    ensures SevenPoints(board, monday, player, n) == SevenDays(credited, monday, player, n)
  {
    if n > 0 {
      PointsAreTotals(board, credited, monday, player, n - 1);
    }
  }

  /** In every state the simulator can reach, the weekly board is the daily board summed over the week. */
  lemma WeeklyIsSumOfDaily(s: Simulator, monday: Day, player: Player)
    requires s.Valid() && Weekday(monday) == 1
    ensures Points(s.weekly, monday, player) == SevenPoints(s.daily, monday, player, 7)
  {
    WeekIsSevenDays(s.credited, monday, player);
    PointsAreTotals(s.daily, s.credited, monday, player, 7);
  }
}
