/**
 * The coworking store and its operations: registering clients and rooms,
 * booking a room for a shift (`registrar_reservacion`) and renaming a booked
 * event (`editar_evento`). The three database tables are fields of `Store`.
 */
module Coworking {

  import opened Wrappers
  import opened Text
  import opened Calendar
  import opened Records
  import opened DatePolicy
  import opened Availability
  import opened Folio
  import opened Prompts
  import opened Editing

  /** The client keys, in table order. */
  function ClientKeys(clients: seq<Client>): (r: seq<int>)
    ensures |r| == |clients|
    ensures forall k :: k in r <==> HasClient(clients, k)
  {
    if clients == [] then []
    else
      var init := clients[..|clients| - 1];
      assert forall i :: 0 <= i < |init| ==> init[i] == clients[i];
      ClientKeys(init) + [clients[|clients| - 1].key]
  }

  /** The room keys of the listed rows, in order. */
  function EntryKeys(rows: seq<Available>): (r: seq<int>)
    ensures |r| == |rows|
    ensures forall k :: k in r <==> exists i :: 0 <= i < |rows| && rows[i].key == k
  {
    if rows == [] then []
    else
      var init := rows[..|rows| - 1];
      assert forall i :: 0 <= i < |init| ==> init[i] == rows[i];
      EntryKeys(init) + [rows[|rows| - 1].key]
  }

  /** The shifts offered by the first listed row for room `key`, read back
      from its text (lines 167-170); none when no row has that key. */
  function OfferedFor(rows: seq<Available>, key: int): seq<string>
  {
    if rows == [] then []
    else if rows[0].key == key then OfferedShifts(rows[0])
    else OfferedFor(rows[1..], key)
  }

  /** Lines 167-170: the first listed row for the chosen room. */
  method FirstWithKey(rows: seq<Available>, key: int) returns (i: nat)
    requires exists j :: 0 <= j < |rows| && rows[j].key == key
    ensures i < |rows| && rows[i].key == key
    ensures forall j :: 0 <= j < i ==> rows[j].key != key
    ensures OfferedShifts(rows[i]) == OfferedFor(rows, key)
  {
    i := 0;
    while rows[i].key != key
      invariant i < |rows|
      decreases |rows| - i
      invariant forall j :: 0 <= j < i ==> rows[j].key != key
      invariant exists j :: i <= j < |rows| && rows[j].key == key
      invariant OfferedFor(rows[i..], key) == OfferedFor(rows, key)
    {
      assert rows[i..][1..] == rows[i + 1..];
      i := i + 1;
    }
  }

  lemma AppendFreshFolio(res: seq<Reservation>, r: Reservation)
    requires UniqueFolios(res) && !HasFolio(res, r.folio)
    ensures UniqueFolios(res + [r])
  {
    var s := res + [r];
    forall i, j | 0 <= i < j < |s| ensures s[i].folio != s[j].folio {
      assert s[i] == res[i];
      if j < |res| {
        assert s[j] == res[j];
      }
    }
  }

  /** Adding an admissible reservation with a fresh folio, for a shift not yet
      booked for that room and date, keeps the invariant, in particular
      the absence of double bookings. */
  lemma BookingKeepsTables(clients: seq<Client>, rooms: seq<Room>, res: seq<Reservation>, r: Reservation)
    requires ValidTables(clients, rooms, res)
    requires ValidReservation(clients, rooms, r)
    requires !HasFolio(res, r.folio)
    requires r.turno !in BookedShifts(res, r.room, r.fecha)
    ensures ValidTables(clients, rooms, res + [r])
  {
    NoDoubleBookingAppend(res, r);
    AppendFreshFolio(res, r);
    assert (res + [r])[..|res|] == res;
  }

  /** Every key handed out so far lies below the next AUTOINCREMENT value. */
  predicate ClientKeysBelow(clients: seq<Client>, next: int)
  {
    forall i :: 0 <= i < |clients| ==> 1 <= clients[i].key < next
  }

  predicate RoomKeysBelow(rooms: seq<Room>, next: int)
  {
    forall i :: 0 <= i < |rooms| ==> 1 <= rooms[i].key < next
  }

  /** The invariant of the store: the tables' invariant and the key counters. */
  predicate StoreInvariant(clients: seq<Client>, rooms: seq<Room>, res: seq<Reservation>, nextClient: int, nextRoom: int)
  {
    && ValidTables(clients, rooms, res)
    && 1 <= nextClient && 1 <= nextRoom
    && ClientKeysBelow(clients, nextClient)
    && RoomKeysBelow(rooms, nextRoom)
  }

  /** A stripped, non-empty answer is admissible text. */
  lemma StrippedIsEntered(s: string)
    requires Strip(s) != []
    ensures IsEnteredText(Strip(s))
  {
    StripIdempotent(s);
  }

  /** The next client key is unused, and a client registered under it keeps the invariant. */
  lemma AddClientKeepsStore(clients: seq<Client>, rooms: seq<Room>, res: seq<Reservation>, nextClient: int, nextRoom: int,
                            nombre: string, apellidos: string)
    requires StoreInvariant(clients, rooms, res, nextClient, nextRoom)
    requires IsEnteredText(nombre) && IsEnteredText(apellidos)
    ensures !HasClient(clients, nextClient)
    ensures StoreInvariant(clients + [Client(nextClient, nombre, apellidos)], rooms, res, nextClient + 1, nextRoom)
  {
    var c := Client(nextClient, nombre, apellidos);
    assert forall i :: 0 <= i < |clients| ==> clients[i].key != nextClient;
    AddClientKeepsTables(clients, rooms, res, c);
    var s := clients + [c];
    forall i | 0 <= i < |s| ensures 1 <= s[i].key < nextClient + 1 {
      if i < |clients| {
        assert s[i] == clients[i];
      } else {
        assert s[i] == c;
      }
    }
  }

  /** The next room key is unused, and a room registered under it keeps the invariant. */
  lemma AddRoomKeepsStore(clients: seq<Client>, rooms: seq<Room>, res: seq<Reservation>, nextClient: int, nextRoom: int,
                          nombre: string, cupo: int)
    requires StoreInvariant(clients, rooms, res, nextClient, nextRoom)
    requires IsEnteredText(nombre) && cupo > 0
    ensures !HasRoom(rooms, nextRoom)
    ensures StoreInvariant(clients, rooms + [Room(nextRoom, nombre, cupo)], res, nextClient, nextRoom + 1)
  {
    var room := Room(nextRoom, nombre, cupo);
    assert forall i :: 0 <= i < |rooms| ==> rooms[i].key != nextRoom;
    AddRoomKeepsTables(clients, rooms, res, room);
    var s := rooms + [room];
    forall i | 0 <= i < |s| ensures 1 <= s[i].key < nextRoom + 1 {
      if i < |rooms| {
        assert s[i] == rooms[i];
      } else {
        assert s[i] == room;
      }
    }
  }

  /** A booking that keeps the tables' invariant keeps the store's. */
  lemma BookingKeepsStore(clients: seq<Client>, rooms: seq<Room>, res: seq<Reservation>, nextClient: int, nextRoom: int,
                          r: Reservation)
    requires StoreInvariant(clients, rooms, res, nextClient, nextRoom)
    requires ValidReservation(clients, rooms, r)
    requires !HasFolio(res, r.folio)
    requires r.turno !in BookedShifts(res, r.room, r.fecha)
    ensures StoreInvariant(clients, rooms, res + [r], nextClient, nextRoom)
  {
    BookingKeepsTables(clients, rooms, res, r);
  }

  /** A shift picked from a listed row is a free shift of a room of the table. */
  lemma ChosenShiftIsFree(rooms: seq<Room>, res: seq<Reservation>, fecha: Date, item: Available, turno: string)
    requires item in AvailableRooms(rooms, res, fecha)
    requires turno in OfferedShifts(item)
    ensures HasRoom(rooms, item.key)
    ensures turno in OpenShifts(BookedShifts(res, item.key, fecha))
    ensures turno in Shifts
  {
    AvailabilityMembership(rooms, res, fecha);
    var p :| 0 <= p < |rooms| && |FreeShifts(rooms[p], res, fecha)| > 0 && item == EntryFor(rooms[p], res, fecha);
    OfferedShiftsAreFree(rooms[p], res, fecha);
  }

  /** A booking assembled from the answers of `registrar_reservacion` keeps the invariant. */
  lemma ChosenBookingKeepsStore(clients: seq<Client>, rooms: seq<Room>, res: seq<Reservation>, nextClient: int, nextRoom: int,
                                item: Available, r: Reservation)
    requires StoreInvariant(clients, rooms, res, nextClient, nextRoom)
    requires HasClient(clients, r.client)
    requires IsValid(r.fecha) && !IsSunday(r.fecha)
    requires item in AvailableRooms(rooms, res, r.fecha) && item.key == r.room
    requires r.turno in OfferedShifts(item)
    requires IsEnteredText(r.evento)
    requires IsFresh(res, r.folio)
    ensures r.turno in OpenShifts(BookedShifts(res, r.room, r.fecha))
    ensures StoreInvariant(clients, rooms, res + [r], nextClient, nextRoom)
  {
    ChosenShiftIsFree(rooms, res, r.fecha, item, r.turno);
    BookingKeepsStore(clients, rooms, res, nextClient, nextRoom, r);
  }

  /** How `registrar_sala` ends. `RoomCrashed`: the INSERT (line 79) could not
      bind the capacity, and the exception ended the program. */
  datatype RoomOutcome = RoomRegistered(key: int) | EmptyRoomName | CapacityNotANumber | CapacityNotPositive | RoomCrashed

  datatype BookingOutcome =
    | Booked(folio: int)
    | NoClients
    | BookingCancelled
    | BookingCrashed  // the client lookup (line 146) could not bind the typed key; the program ends
    | NoRoomsAvailable
    | EmptyEvent
    | BookingUnfinished

  datatype EditOutcome =
    | Updated(folio: int)
    | BadRangeFormat
    | NothingInRange
    | EditCancelled
    | EmptyName
    | EditUnfinished

  /**
   * What `registrar_reservacion` checks of the row it inserts: a fresh folio,
   * a registered client, a date some pass of the date prompt admitted, a room
   * listed as available on that date with the chosen shift among those it
   * offered, and the stripped, non-empty event name.
   */
  ghost predicate Answered(clients: seq<Client>, rooms: seq<Room>, res: seq<Reservation>,
                           dateAttempts: seq<DateAttempt>, eventoRaw: string, r: Reservation)
  {
    && IsFresh(res, r.folio)
    && HasClient(clients, r.client)
    && (exists k :: 0 <= k < |dateAttempts| && WellFormed(dateAttempts[k]) && Normalize(dateAttempts[k]) == Some(r.fecha))
    && (exists e :: e in AvailableRooms(rooms, res, r.fecha) && e.key == r.room && r.turno in OfferedShifts(e))
    && r.evento == Strip(eventoRaw) && r.evento != []
  }

  /** The row `registrar_reservacion` inserts keeps the invariant, and its shift was free. */
  lemma AnsweredBookingKeepsStore(clients: seq<Client>, rooms: seq<Room>, res: seq<Reservation>, nextClient: int, nextRoom: int,
                                  dateAttempts: seq<DateAttempt>, eventoRaw: string, r: Reservation)
    requires StoreInvariant(clients, rooms, res, nextClient, nextRoom)
    requires Answered(clients, rooms, res, dateAttempts, eventoRaw, r)
    ensures r.turno in OpenShifts(BookedShifts(res, r.room, r.fecha))
    ensures StoreInvariant(clients, rooms, res + [r], nextClient, nextRoom)
  {
    var k :| 0 <= k < |dateAttempts| && WellFormed(dateAttempts[k]) && Normalize(dateAttempts[k]) == Some(r.fecha);
    var e :| e in AvailableRooms(rooms, res, r.fecha) && e.key == r.room && r.turno in OfferedShifts(e);
    StrippedIsEntered(eventoRaw);
    ChosenBookingKeepsStore(clients, rooms, res, nextClient, nextRoom, e, r);
  }

  /** The client, date, room and shift the prompts of `registrar_reservacion` settle on. */
  datatype Choice = Choice(client: int, fecha: Date, room: int, turno: string)

  /**
   * The answers the prompts take, when every prompt takes one: the first
   * registered client key typed, the date of the first pass the date prompt
   * admits, the first key typed of a room listed as available on that date,
   * and the first typed shift among those that room's row offers.
   */
  function Choose(clients: seq<Client>, rooms: seq<Room>, res: seq<Reservation>,
                  clientAnswers: seq<Entry>, dateAttempts: seq<DateAttempt>, roomAnswers: seq<Entry>,
                  shiftAnswers: seq<string>): Option<Choice>
    requires forall j :: 0 <= j < |dateAttempts| ==> WellFormed(dateAttempts[j])
  {
    var cp := FirstNumber(ClientKeys(clients), clientAnswers, true, true);
    var d := AdmittedDate(dateAttempts);
    if !cp.Picked? || d.None? then None
    else
      var rows := AvailableRooms(rooms, res, d.value);
      var rp := FirstNumber(EntryKeys(rows), roomAnswers, false, false);
      if !rp.Picked? then None
      else
        var sp := FirstShift(OfferedFor(rows, rp.value), shiftAnswers);
        if !sp.Picked? then None
        else Some(Choice(cp.value, d.value, rp.value, sp.value))
  }

  /**
   * The row `registrar_reservacion` inserts: the prompts' choice, the stripped
   * event name when it is not empty, and the first draw no reservation uses.
   */
  function ExpectedBooking(clients: seq<Client>, rooms: seq<Room>, res: seq<Reservation>,
                           clientAnswers: seq<Entry>, dateAttempts: seq<DateAttempt>, roomAnswers: seq<Entry>,
                           shiftAnswers: seq<string>, eventoRaw: string, draws: seq<int>): Option<Reservation>
    requires forall j :: 0 <= j < |dateAttempts| ==> WellFormed(dateAttempts[j])
    requires forall j :: 0 <= j < |draws| ==> MinFolio <= draws[j] <= MaxFolio
  {
    var c := Choose(clients, rooms, res, clientAnswers, dateAttempts, roomAnswers, shiftAnswers);
    var folio := FreeDraw(res, draws);
    if c.None? || Strip(eventoRaw) == [] || folio.None? then None
    else Some(Reservation(folio.value, c.value.client, c.value.room, c.value.fecha, c.value.turno, Strip(eventoRaw)))
  }

  /** The room rows listed for `fecha`, where the prompts' choice must lie. */
  predicate ChoiceListed(rooms: seq<Room>, res: seq<Reservation>, c: Choice)
  {
    exists e :: e in AvailableRooms(rooms, res, c.fecha) && e.key == c.room && c.turno in OfferedShifts(e)
  }

  /**
   * Lines 129-176 of `registrar_reservacion`: the client prompt (which may be
   * cancelled), the date prompt, the listing of available rooms and the room
   * and shift prompts. `stop` is how the workflow ends when it does not get
   * that far.
   */
  method AskChoices(clients: seq<Client>, rooms: seq<Room>, reservations: seq<Reservation>,
                    clientAnswers: seq<Entry>, dateAttempts: seq<DateAttempt>, roomAnswers: seq<Entry>,
                    shiftAnswers: seq<string>)
    returns (stop: Option<BookingOutcome>, choice: Option<Choice>)
    requires forall j :: 0 <= j < |dateAttempts| ==> WellFormed(dateAttempts[j])
    ensures choice == Choose(clients, rooms, reservations, clientAnswers, dateAttempts, roomAnswers, shiftAnswers)
    ensures stop.None? <==> choice.Some?
    ensures stop == Some(NoClients) <==> clients == []
    ensures stop == Some(BookingCancelled) <==> clients != [] && FirstNumber(ClientKeys(clients), clientAnswers, true, true).Cancelled?
    ensures stop == Some(BookingCrashed) <==> clients != [] && FirstNumber(ClientKeys(clients), clientAnswers, true, true).Crashed?
    ensures stop == Some(NoRoomsAvailable) <==>
              && FirstNumber(ClientKeys(clients), clientAnswers, true, true).Picked?
              && AdmittedDate(dateAttempts).Some?
              && AvailableRooms(rooms, reservations, AdmittedDate(dateAttempts).value) == []
    ensures stop.Some? ==> stop.value.NoClients? || stop.value.BookingCancelled? || stop.value.BookingCrashed?
                           || stop.value.NoRoomsAvailable? || stop.value.BookingUnfinished?
    ensures choice.Some? ==>
              && HasClient(clients, choice.value.client)
              && (exists k :: 0 <= k < |dateAttempts| && Normalize(dateAttempts[k]) == Some(choice.value.fecha))
              && ChoiceListed(rooms, reservations, choice.value)
  {
    choice := None;
    var keys := ClientKeys(clients);
    if clients == [] {
      return Some(NoClients), None;
    }
    var cp := SelectNumber(keys, clientAnswers, true, true);
    if cp.Cancelled? {
      return Some(BookingCancelled), None;
    }
    if cp.Crashed? {
      return Some(BookingCrashed), None;
    }
    if cp.Unfinished? {
      return Some(BookingUnfinished), None;
    }
    var clave := cp.value;

    var fecha, dk := ReadDate(dateAttempts);
    if fecha.None? {
      return Some(BookingUnfinished), None;
    }
    var d := fecha.value;

    var disponibles := ListAvailableRooms(rooms, reservations, d);
    if |disponibles| == 0 {
      return Some(NoRoomsAvailable), None;
    }
    var rp := SelectNumber(EntryKeys(disponibles), roomAnswers, false, false);
    if !rp.Picked? {
      return Some(BookingUnfinished), None;
    }
    var claveS := rp.value;
    var at := FirstWithKey(disponibles, claveS);
    var item := disponibles[at];
    var turnos := OfferedShifts(item);

    var sp := SelectShift(turnos, shiftAnswers);
    if !sp.Picked? {
      return Some(BookingUnfinished), None;
    }
    assert item in AvailableRooms(rooms, reservations, d);
    stop, choice := None, Some(Choice(clave, d, claveS, sp.value));
  }

  /**
   * Lines 129-186 of `registrar_reservacion`, up to the INSERT: the prompts
   * (see `AskChoices`), the event name and the folio. The tables are only
   * read; `booking` is the row to insert.
   */
  method PlanBooking(clients: seq<Client>, rooms: seq<Room>, reservations: seq<Reservation>,
                     clientAnswers: seq<Entry>, dateAttempts: seq<DateAttempt>, roomAnswers: seq<Entry>,
                     shiftAnswers: seq<string>, eventoRaw: string, draws: seq<int>)
    returns (outcome: BookingOutcome, booking: Option<Reservation>)
    requires forall j :: 0 <= j < |dateAttempts| ==> WellFormed(dateAttempts[j])
    requires forall j :: 0 <= j < |draws| ==> MinFolio <= draws[j] <= MaxFolio
    ensures outcome.NoClients? <==> clients == []
    ensures outcome.BookingCancelled? <==> clients != [] && FirstNumber(ClientKeys(clients), clientAnswers, true, true).Cancelled?
    ensures outcome.BookingCrashed? <==> clients != [] && FirstNumber(ClientKeys(clients), clientAnswers, true, true).Crashed?
    ensures outcome.NoRoomsAvailable? <==>
              && FirstNumber(ClientKeys(clients), clientAnswers, true, true).Picked?
              && AdmittedDate(dateAttempts).Some?
              && AvailableRooms(rooms, reservations, AdmittedDate(dateAttempts).value) == []
    ensures outcome.EmptyEvent? <==>
              Choose(clients, rooms, reservations, clientAnswers, dateAttempts, roomAnswers, shiftAnswers).Some?
              && Strip(eventoRaw) == []
    ensures booking == ExpectedBooking(clients, rooms, reservations, clientAnswers, dateAttempts, roomAnswers,
                                       shiftAnswers, eventoRaw, draws)
    ensures booking.Some? <==> outcome.Booked?
    ensures booking.Some? ==> booking.value.folio == outcome.folio
                              && Answered(clients, rooms, reservations, dateAttempts, eventoRaw, booking.value)
  {
    var stop, choice := AskChoices(clients, rooms, reservations, clientAnswers, dateAttempts, roomAnswers, shiftAnswers);
    if stop.Some? {
      return stop.value, None;
    }
    var c := choice.value;

    var evento := Strip(eventoRaw);
    if evento == [] {
      return EmptyEvent, None;
    }

    var folio, fk := GenerateFolio(reservations, draws);
    if folio.None? {
      return BookingUnfinished, None;
    }
    outcome := Booked(folio.value);
    booking := Some(Reservation(folio.value, c.client, c.room, c.fecha, c.turno, evento));
    assert ChoiceListed(rooms, reservations, c);
  }

  /**
   * `editar_evento` up to the UPDATE (lines 234-271): `fiRaw` and `ffRaw` are
   * the typed range bounds, which must read as dates but are compared as
   * typed; `folioAnswers` and `nuevoRaw` answer the folio and name prompts.
   * The table is only read; `Updated` names the folio to rename.
   */
  method PlanEdit(res: seq<Reservation>, fiRaw: string, ffRaw: string, folioAnswers: seq<Entry>, nuevoRaw: string)
    returns (outcome: EditOutcome)
    requires DatesValid(res)
    ensures outcome.BadRangeFormat? <==> Strptime(Strip(fiRaw)).None? || Strptime(Strip(ffRaw)).None?
    ensures var listed := ListedFolios(res, Strip(fiRaw), Strip(ffRaw));
            outcome.NothingInRange? <==> !outcome.BadRangeFormat? && listed == []
    ensures var listed := ListedFolios(res, Strip(fiRaw), Strip(ffRaw));
            outcome.EditCancelled? <==>
              !outcome.BadRangeFormat? && listed != [] && FirstNumber(listed, folioAnswers, true, false).Cancelled?
    ensures var listed := ListedFolios(res, Strip(fiRaw), Strip(ffRaw));
            outcome.EmptyName? <==>
              !outcome.BadRangeFormat? && FirstNumber(listed, folioAnswers, true, false).Picked? && Strip(nuevoRaw) == []
    ensures var listed := ListedFolios(res, Strip(fiRaw), Strip(ffRaw));
            outcome.Updated? <==>
              !outcome.BadRangeFormat? && FirstNumber(listed, folioAnswers, true, false).Picked? && Strip(nuevoRaw) != []
    ensures outcome.Updated? ==>
              && outcome.folio == FirstNumber(ListedFolios(res, Strip(fiRaw), Strip(ffRaw)), folioAnswers, true, false).value
              && outcome.folio in ListedFolios(res, Strip(fiRaw), Strip(ffRaw))
  {
    var fi, ff := Strip(fiRaw), Strip(ffRaw);
    if Strptime(fi).None? || Strptime(ff).None? {
      return BadRangeFormat;
    }
    var listed := ListedFolios(res, fi, ff);
    if |listed| == 0 {
      return NothingInRange;
    }
    var fp := SelectNumber(listed, folioAnswers, true, false);
    if fp.Cancelled? {
      return EditCancelled;
    }
    if fp.Unfinished? {
      return EditUnfinished;
    }
    if Strip(nuevoRaw) == [] {
      return EmptyName;
    }
    outcome := Updated(fp.value);
  }

  class Store {
    var clients: seq<Client>
    var rooms: seq<Room>
    var reservations: seq<Reservation>
    /** The next key AUTOINCREMENT hands out for CLIENTES and for SALAS. */
    var nextClientKey: int
    var nextRoomKey: int

    ghost predicate Valid()
      reads this
    {
      StoreInvariant(clients, rooms, reservations, nextClientKey, nextRoomKey)
    }

    /** A freshly created database (`inicializar_bd` on a new file). */
    constructor ()
      ensures Valid()
      ensures clients == [] && rooms == [] && reservations == []
      ensures nextClientKey == 1 && nextRoomKey == 1
    {
      clients, rooms, reservations := [], [], [];
      nextClientKey, nextRoomKey := 1, 1;
    }

    /** `registrar_cliente`: both names are stripped and must not be empty. */
    method RegisterClient(nombreRaw: string, apellidosRaw: string) returns (key: Option<int>)
      requires Valid()
      modifies this
      ensures Valid()
      ensures key.Some? <==> Strip(nombreRaw) != [] && Strip(apellidosRaw) != []
      ensures key.Some? ==> !HasClient(old(clients), key.value)
                            && clients == old(clients) + [Client(key.value, Strip(nombreRaw), Strip(apellidosRaw))]
      ensures key.Some? ==> key.value == old(nextClientKey) && nextClientKey == old(nextClientKey) + 1
      ensures key.None? ==> clients == old(clients) && nextClientKey == old(nextClientKey)
      ensures rooms == old(rooms) && reservations == old(reservations) && nextRoomKey == old(nextRoomKey)
    {
      var nombre := Strip(nombreRaw);
      var apellidos := Strip(apellidosRaw);
      if nombre == [] || apellidos == [] {
        return None;
      }
      StrippedIsEntered(nombreRaw);
      StrippedIsEntered(apellidosRaw);
      var c := Client(nextClientKey, nombre, apellidos);
      AddClientKeepsStore(clients, rooms, reservations, nextClientKey, nextRoomKey, nombre, apellidos);
      ghost var unused := !HasClient(clients, c.key);
      clients, nextClientKey := clients + [c], nextClientKey + 1;
      assert StoreInvariant(clients, rooms, reservations, nextClientKey, nextRoomKey);
      assert unused && clients == old(clients) + [c];
      key := Some(c.key);
    }

    /** `registrar_sala`: the name is stripped and must not be empty; the
        capacity must parse as an integer (`None` when `int()` fails) and be
        positive, and the INSERT raises when SQLite cannot hold it. */
    method RegisterRoom(nombreRaw: string, cupo: Option<int>) returns (outcome: RoomOutcome)
      requires Valid()
      modifies this
      ensures Valid()
      ensures outcome.EmptyRoomName? <==> Strip(nombreRaw) == []
      ensures outcome.CapacityNotANumber? <==> Strip(nombreRaw) != [] && cupo.None?
      ensures outcome.CapacityNotPositive? <==> Strip(nombreRaw) != [] && cupo.Some? && cupo.value <= 0
      ensures outcome.RoomCrashed? <==> Strip(nombreRaw) != [] && cupo.Some? && cupo.value > MaxSqlInteger
      ensures outcome.RoomRegistered? <==> Strip(nombreRaw) != [] && cupo.Some? && 0 < cupo.value <= MaxSqlInteger
      ensures outcome.RoomRegistered? ==> !HasRoom(old(rooms), outcome.key)
                                          && rooms == old(rooms) + [Room(outcome.key, Strip(nombreRaw), cupo.value)]
      ensures outcome.RoomRegistered? ==> outcome.key == old(nextRoomKey) && nextRoomKey == old(nextRoomKey) + 1
      ensures !outcome.RoomRegistered? ==> rooms == old(rooms) && nextRoomKey == old(nextRoomKey)
      ensures clients == old(clients) && reservations == old(reservations) && nextClientKey == old(nextClientKey)
    {
      var nombre := Strip(nombreRaw);
      if nombre == [] {
        return EmptyRoomName;
      }
      if cupo.None? {
        return CapacityNotANumber;
      }
      if cupo.value <= 0 {
        return CapacityNotPositive;
      }
      if !SqlInteger(cupo.value) {
        return RoomCrashed;
      }
      StrippedIsEntered(nombreRaw);
      var room := Room(nextRoomKey, nombre, cupo.value);
      AddRoomKeepsStore(clients, rooms, reservations, nextClientKey, nextRoomKey, nombre, cupo.value);
      ghost var unused := !HasRoom(rooms, room.key);
      rooms, nextRoomKey := rooms + [room], nextRoomKey + 1;
      assert StoreInvariant(clients, rooms, reservations, nextClientKey, nextRoomKey);
      assert unused && rooms == old(rooms) + [room];
      outcome := RoomRegistered(room.key);
    }

    /**
     * `registrar_reservacion`: asks the questions (see `PlanBooking`) and,
     * when every answer was admitted, inserts the planned row.
     */
    method RegisterReservation(clientAnswers: seq<Entry>, dateAttempts: seq<DateAttempt>, roomAnswers: seq<Entry>,
                               shiftAnswers: seq<string>, eventoRaw: string, draws: seq<int>)
      returns (outcome: BookingOutcome, booked: Option<Reservation>)
      requires Valid()
      requires forall j :: 0 <= j < |dateAttempts| ==> WellFormed(dateAttempts[j])
      requires forall j :: 0 <= j < |draws| ==> MinFolio <= draws[j] <= MaxFolio
      modifies this
      ensures Valid()
      ensures clients == old(clients) && rooms == old(rooms)
      ensures nextClientKey == old(nextClientKey) && nextRoomKey == old(nextRoomKey)
      ensures outcome.NoClients? <==> clients == []
      ensures outcome.BookingCancelled? <==> clients != [] && FirstNumber(ClientKeys(clients), clientAnswers, true, true).Cancelled?
      ensures outcome.BookingCrashed? <==> clients != [] && FirstNumber(ClientKeys(clients), clientAnswers, true, true).Crashed?
      ensures outcome.NoRoomsAvailable? <==>
                && FirstNumber(ClientKeys(clients), clientAnswers, true, true).Picked?
                && AdmittedDate(dateAttempts).Some?
                && AvailableRooms(rooms, old(reservations), AdmittedDate(dateAttempts).value) == []
      ensures outcome.EmptyEvent? <==>
                Choose(clients, rooms, old(reservations), clientAnswers, dateAttempts, roomAnswers, shiftAnswers).Some?
                && Strip(eventoRaw) == []
      ensures booked == ExpectedBooking(clients, rooms, old(reservations), clientAnswers, dateAttempts, roomAnswers,
                                        shiftAnswers, eventoRaw, draws)
      ensures booked.Some? <==> outcome.Booked?
      ensures booked.None? ==> reservations == old(reservations)
      ensures booked.Some? ==>
        && reservations == old(reservations) + [booked.value]
        && booked.value.folio == outcome.folio
        && Answered(clients, rooms, old(reservations), dateAttempts, eventoRaw, booked.value)
        && booked.value.turno in OpenShifts(BookedShifts(old(reservations), booked.value.room, booked.value.fecha))
    {
      var res := reservations;
      outcome, booked := PlanBooking(clients, rooms, res, clientAnswers, dateAttempts, roomAnswers,
                                     shiftAnswers, eventoRaw, draws);
      if booked.Some? {
        AnsweredBookingKeepsStore(clients, rooms, res, nextClientKey, nextRoomKey, dateAttempts, eventoRaw, booked.value);
        reservations := res + [booked.value];
        assert StoreInvariant(clients, rooms, reservations, nextClientKey, nextRoomKey);
      }
    }

    /**
     * `editar_evento` (see `PlanEdit`): renames the chosen booking when the
     * workflow gets as far as the UPDATE.
     */
    method EditEvent(fiRaw: string, ffRaw: string, folioAnswers: seq<Entry>, nuevoRaw: string)
      returns (outcome: EditOutcome)
      requires Valid()
      modifies this
      ensures Valid()
      ensures clients == old(clients) && rooms == old(rooms)
      ensures nextClientKey == old(nextClientKey) && nextRoomKey == old(nextRoomKey)
      ensures outcome.BadRangeFormat? <==> Strptime(Strip(fiRaw)).None? || Strptime(Strip(ffRaw)).None?
      ensures var listed := ListedFolios(old(reservations), Strip(fiRaw), Strip(ffRaw));
              outcome.NothingInRange? <==> !outcome.BadRangeFormat? && listed == []
      ensures var listed := ListedFolios(old(reservations), Strip(fiRaw), Strip(ffRaw));
              outcome.EditCancelled? <==>
                !outcome.BadRangeFormat? && listed != [] && FirstNumber(listed, folioAnswers, true, false).Cancelled?
      ensures var listed := ListedFolios(old(reservations), Strip(fiRaw), Strip(ffRaw));
              outcome.EmptyName? <==>
                !outcome.BadRangeFormat? && FirstNumber(listed, folioAnswers, true, false).Picked? && Strip(nuevoRaw) == []
      ensures var listed := ListedFolios(old(reservations), Strip(fiRaw), Strip(ffRaw));
              outcome.Updated? <==>
                !outcome.BadRangeFormat? && FirstNumber(listed, folioAnswers, true, false).Picked? && Strip(nuevoRaw) != []
      ensures outcome.Updated? ==>
                && outcome.folio == FirstNumber(ListedFolios(old(reservations), Strip(fiRaw), Strip(ffRaw)), folioAnswers, true, false).value
                && reservations == Rename(old(reservations), outcome.folio, Strip(nuevoRaw))
      ensures !outcome.Updated? ==> reservations == old(reservations)
    {
      outcome := PlanEdit(reservations, fiRaw, ffRaw, folioAnswers, nuevoRaw);
      if outcome.Updated? {
        var nuevo := Strip(nuevoRaw);
        var renamed := Rename(reservations, outcome.folio, nuevo);
        StrippedIsEntered(nuevoRaw);
        RenameKeepsTables(clients, rooms, reservations, outcome.folio, nuevo);
        reservations := renamed;
        assert StoreInvariant(clients, rooms, reservations, nextClientKey, nextRoomKey);
      }
    }
  }
}
