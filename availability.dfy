/**
 * `listar_salas_disponibles`: for a date, the rooms that still have a free
 * shift, each with its free shifts joined by ", ".
 */
module Availability {

  import opened Calendar
  import opened Text
  import opened Records

  /** `SELECT turno FROM RESERVACIONES WHERE clave_s = ? AND fecha = ?`, in table order. */
  function BookedShifts(res: seq<Reservation>, room: int, fecha: Date): (r: seq<string>)
    ensures forall i :: 0 <= i < |res| && res[i].room == room && res[i].fecha == fecha ==> res[i].turno in r
    ensures forall t :: t in r ==> exists i :: 0 <= i < |res| && res[i].room == room && res[i].fecha == fecha && res[i].turno == t
  {
    if res == [] then []
    else
      var last := res[|res| - 1];
      var init := res[..|res| - 1];
      assert forall i :: 0 <= i < |init| ==> init[i] == res[i];
      BookedShifts(init, room, fecha) + (if last.room == room && last.fecha == fecha then [last.turno] else [])
  }

  /** `[t for t in ts if t not in excluded]`. */
  function Without(ts: seq<string>, excluded: seq<string>): (r: seq<string>)
    ensures |r| <= |ts|
    ensures forall t :: t in r <==> t in ts && t !in excluded
  {
    if ts == [] then []
    else (if ts[0] in excluded then [] else [ts[0]]) + Without(ts[1..], excluded)
  }

  /** Line 123: the shifts of the day that are not among the booked ones. */
  function OpenShifts(booked: seq<string>): seq<string>
  {
    Without(Shifts, booked)
  }

  /** `w` picks the elements of `ts` at the strictly increasing positions `idx`. */
  predicate Picks(ts: seq<string>, w: seq<string>, idx: seq<int>)
  {
    && |idx| == |w|
    && (forall k :: 0 <= k < |idx| ==> 0 <= idx[k] < |ts| && w[k] == ts[idx[k]])
    && (forall k, l :: 0 <= k < l < |idx| ==> idx[k] < idx[l])
  }

  /** Picks from the tail of a list are picks from the list, one position
      further on, whether or not the head is picked too. */
  lemma PicksCons(ts: seq<string>, w: seq<string>, idx: seq<int>)
    requires ts != [] && Picks(ts[1..], w, idx)
    ensures Picks(ts, w, Incremented(idx))
    ensures Picks(ts, [ts[0]] + w, [0] + Incremented(idx))
  {
    var inc := Incremented(idx);
    assert Picks(ts, w, inc) by {
      forall k | 0 <= k < |inc|
        ensures 0 <= inc[k] < |ts| && w[k] == ts[inc[k]]
      {
        assert w[k] == ts[1..][idx[k]];
      }
    }
    var w1, i1 := [ts[0]] + w, [0] + inc;
    forall k | 0 < k < |i1|
      ensures i1[k] == inc[k - 1] && w1[k] == w[k - 1]
    {
    }
  }

  /** Every position one further on. */
  function Incremented(s: seq<int>): (r: seq<int>)
    ensures |r| == |s|
    ensures forall k :: 0 <= k < |s| ==> r[k] == s[k] + 1
  {
    if s == [] then [] else [s[0] + 1] + Incremented(s[1..])
  }

  /** The filter keeps the order of the list it filters: the result picks
      elements of `ts` at strictly increasing positions. */
  lemma {:induction false} WithoutKeepsOrder(ts: seq<string>, excluded: seq<string>) returns (idx: seq<int>)
    ensures Picks(ts, Without(ts, excluded), idx)
  {
    if ts == [] {
      idx := [];
    } else {
      var rest := WithoutKeepsOrder(ts[1..], excluded);
      PicksCons(ts, Without(ts[1..], excluded), rest);
      if ts[0] in excluded {
        idx := Incremented(rest);
      } else {
        idx := [0] + Incremented(rest);
      }
    }
  }

  /** A row of the result: `(clave_s, nombre_sala, cupo, ", ".join(turnos))`. */
  datatype Available = Available(key: int, nombre: string, cupo: int, turnos: string)

  /** The free shifts of a room on a date. */
  function FreeShifts(room: Room, res: seq<Reservation>, fecha: Date): seq<string>
  {
    OpenShifts(BookedShifts(res, room.key, fecha))
  }

  /** The row the loop builds for a room. */
  function EntryFor(room: Room, res: seq<Reservation>, fecha: Date): Available
  {
    Available(room.key, room.nombre, room.cupo, Join(FreeShifts(room, res, fecha), ", "))
  }

  /** The rows the loop appends, for the rooms in table order. */
  function AvailableRooms(rooms: seq<Room>, res: seq<Reservation>, fecha: Date): (r: seq<Available>)
    ensures |r| <= |rooms|
  {
    if rooms == [] then []
    else
      var room := rooms[|rooms| - 1];
      AvailableRooms(rooms[..|rooms| - 1], res, fecha)
        + (if |FreeShifts(room, res, fecha)| > 0 then [EntryFor(room, res, fecha)] else [])
  }

  /** `listar_salas_disponibles(fecha)` over a snapshot of the SALAS and RESERVACIONES tables. */
  method ListAvailableRooms(rooms: seq<Room>, res: seq<Reservation>, fecha: Date) returns (disponibles: seq<Available>)
    ensures disponibles == AvailableRooms(rooms, res, fecha)
  {
    disponibles := [];
    for i := 0 to |rooms|
      invariant disponibles == AvailableRooms(rooms[..i], res, fecha)
    {
      var room := rooms[i];
      var ocupadas := BookedShifts(res, room.key, fecha);
      var turnos := OpenShifts(ocupadas);
      if |turnos| > 0 {
        disponibles := disponibles + [Available(room.key, room.nombre, room.cupo, Join(turnos, ", "))];
      }
      assert rooms[..i + 1][..i] == rooms[..i];
    }
    assert rooms[..|rooms|] == rooms;
  }

  /** A room is listed exactly when it has a free shift. */
  lemma {:induction false} AvailabilityMembership(rooms: seq<Room>, res: seq<Reservation>, fecha: Date)
    ensures forall p :: 0 <= p < |rooms| && |FreeShifts(rooms[p], res, fecha)| > 0 ==>
              EntryFor(rooms[p], res, fecha) in AvailableRooms(rooms, res, fecha)
    ensures forall e :: e in AvailableRooms(rooms, res, fecha) ==>
              exists p :: 0 <= p < |rooms| && |FreeShifts(rooms[p], res, fecha)| > 0 && e == EntryFor(rooms[p], res, fecha)
  {
    if rooms != [] {
      var init := rooms[..|rooms| - 1];
      AvailabilityMembership(init, res, fecha);
      assert forall p :: 0 <= p < |init| ==> init[p] == rooms[p];
    }
  }

  /** The listed rows keep the order of the rooms in the table. */
  lemma {:induction false} AvailabilityInTableOrder(rooms: seq<Room>, res: seq<Reservation>, fecha: Date) returns (idx: seq<int>)
    ensures |idx| == |AvailableRooms(rooms, res, fecha)|
    ensures forall k :: 0 <= k < |idx| ==>
              (0 <= idx[k] < |rooms|
               && |FreeShifts(rooms[idx[k]], res, fecha)| > 0
               && AvailableRooms(rooms, res, fecha)[k] == EntryFor(rooms[idx[k]], res, fecha))
    ensures forall k, l :: 0 <= k < l < |idx| ==> idx[k] < idx[l]
  {
    if rooms == [] {
      idx := [];
    } else {
      var n := |rooms| - 1;
      var init := rooms[..n];
      idx := AvailabilityInTableOrder(init, res, fecha);
      assert forall p :: 0 <= p < |init| ==> init[p] == rooms[p];
      if |FreeShifts(rooms[n], res, fecha)| > 0 {
        idx := idx + [n];
      }
    }
  }

  /** A room whose three shifts are all booked on the date is never listed. */
  lemma FullyBookedNotListed(rooms: seq<Room>, res: seq<Reservation>, fecha: Date, key: int)
    requires forall t :: t in Shifts ==> t in BookedShifts(res, key, fecha)
    ensures forall e :: e in AvailableRooms(rooms, res, fecha) ==> e.key != key
  {
    AvailabilityMembership(rooms, res, fecha);
    forall e | e in AvailableRooms(rooms, res, fecha) ensures e.key != key {
      var p :| 0 <= p < |rooms| && |FreeShifts(rooms[p], res, fecha)| > 0 && e == EntryFor(rooms[p], res, fecha);
      assert FreeShifts(rooms[p], res, fecha)[0] in FreeShifts(rooms[p], res, fecha);
    }
  }

  /** Line 169: the shifts read back from a listed row. */
  function OfferedShifts(e: Available): seq<string>
  {
    StripAll(Split(e.turnos))
  }

  /** The shift names hold no comma and no surrounding whitespace. */
  lemma ShiftNamesArePlain()
    ensures forall t :: t in Shifts ==> ',' !in t && Strip(t) == t
  {
    forall t | t in Shifts
      ensures ',' !in t && Strip(t) == t
    {
      assert t == "Matutino" || t == "Vespertino" || t == "Nocturno";
      LettersArePlain(t);
    }
  }

  /** Splitting the row's text back gives exactly the room's free shifts, in order. */
  lemma OfferedShiftsAreFree(room: Room, res: seq<Reservation>, fecha: Date)
    requires |FreeShifts(room, res, fecha)| > 0
    ensures OfferedShifts(EntryFor(room, res, fecha)) == FreeShifts(room, res, fecha)
  {
    var ws := FreeShifts(room, res, fecha);
    ShiftNamesArePlain();
    assert forall k :: 0 <= k < |ws| ==> ws[k] in Shifts;
    SplitStripJoin(ws);
  }

  /** Adding a reservation keeps the no-double-booking invariant exactly when
      its shift is not yet booked for that room and date. */
  lemma NoDoubleBookingAppend(res: seq<Reservation>, r: Reservation)
    requires NoDoubleBooking(res)
    ensures NoDoubleBooking(res + [r]) <==> r.turno !in BookedShifts(res, r.room, r.fecha)
  {
    var s := res + [r];
    assert forall i :: 0 <= i < |res| ==> s[i] == res[i];
    if r.turno in BookedShifts(res, r.room, r.fecha) {
      var i :| 0 <= i < |res| && res[i].room == r.room && res[i].fecha == r.fecha && res[i].turno == r.turno;
      assert s[i].turno == s[|res|].turno;
    }
  }

  /** A room with no booking on a date has all three shifts free. */
  lemma {:induction false} NothingBookedAllFree(res: seq<Reservation>, room: Room, fecha: Date)
    requires forall i :: 0 <= i < |res| ==> res[i].room != room.key || res[i].fecha != fecha
    ensures BookedShifts(res, room.key, fecha) == []
    ensures FreeShifts(room, res, fecha) == Shifts
  {
    if res != [] {
      var init := res[..|res| - 1];
      assert forall i :: 0 <= i < |init| ==> init[i] == res[i];
      NothingBookedAllFree(init, room, fecha);
    }
    WithoutNothing(Shifts);
  }

  /** Filtering out nothing keeps the whole list. */
  lemma {:induction false} WithoutNothing(ts: seq<string>)
    ensures Without(ts, []) == ts
  {
    if ts != [] {
      WithoutNothing(ts[1..]);
    }
  }

  /** Once the morning and the afternoon of a room and date are booked, on a
      room that had no booking that day, only the night shift is still offered. */
  lemma TwoBookingsLeaveNight(res: seq<Reservation>, room: Room, a: Reservation, b: Reservation)
    requires forall i :: 0 <= i < |res| ==> res[i].room != room.key || res[i].fecha != a.fecha
    requires a.room == room.key && b.room == room.key && a.fecha == b.fecha
    requires a.turno == "Matutino" && b.turno == "Vespertino"
    ensures FreeShifts(room, res + [a, b], a.fecha) == ["Nocturno"]
  {
    NothingBookedAllFree(res, room, a.fecha);
    var s := res + [a, b];
    assert s[..|s| - 1] == res + [a];
    assert (res + [a])[..|res|] == res;
    assert BookedShifts(res + [a], room.key, a.fecha) == ["Matutino"];
    assert BookedShifts(s, room.key, a.fecha) == ["Matutino", "Vespertino"];
    assert OpenShifts(["Matutino", "Vespertino"]) == ["Nocturno"];
  }
}
