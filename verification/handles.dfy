/** The lifetime of the native resources the binding owns (luaejdb.c): the
    engine instance behind a database userdata, the result list behind a
    cursor userdata, and the document buffer db_save builds.

    A userdata box holds one pointer. It is live while the pointer is
    non-null and tombstoned once the binding has set it to NULL. The engine
    object behind it is tracked by a `Resource`: how many times it has been
    released and whether anything touched it after its first release. These
    two fields are bookkeeping for the proofs; the binding itself never reads
    them. */
module Handles {
  import opened LuaHost
  import opened OpenMode
  import opened ObjectId

  /** Release bookkeeping of one native object. */
  datatype Resource = Resource(releases: nat, usedAfterRelease: bool) {

    /** Hand the object back to its library (ejdbdel, tclistdel, bson_destroy). */
    function Free(): Resource {
      this.(releases := releases + 1)
    }

    /** Any call that reads or writes the object. */
    function Touch(): Resource {
      this.(usedAfterRelease := usedAfterRelease || releases > 0)
    }

    /** Released at most once and never touched after release. */
    predicate Sound() {
      releases <= 1 && !usedAfterRelease
    }
  }

  /** A native object that has just been allocated. */
  const Fresh := Resource(0, false)

  /** The engine instance: its release bookkeeping, whether the engine
      considers it open, and how many times the binding asked to close it. */
  datatype Db = Db(res: Resource, engineOpen: bool, closeCalls: nat)

  /** The database userdata (EJDBDATA): `live` iff its pointer is non-null. */
  datatype DbBox = DbBox(live: bool, db: Db)

  /** The cursor userdata (CURSORDATA) and the result list it points to. */
  datatype CursorBox = CursorBox(live: bool, list: Resource)

  /** The ownership invariant of a box: a live pointer refers to an object
      not yet released; a tombstoned one to an object released exactly once;
      nothing was touched after release. */
  predicate Tracked(live: bool, r: Resource) {
    !r.usedAfterRelease && (if live then r.releases == 0 else r.releases == 1)
  }

  predicate DbTracked(b: DbBox) {
    Tracked(b.live, b.db.res)
  }

  /** The engine call made through the box's pointer: it touches the
      instance only when the pointer is non-null. */
  function UseDb(b: DbBox): (r: DbBox)
    ensures r.live == b.live && r.db.res.releases == b.db.res.releases
    ensures DbTracked(b) ==> r == b
    ensures !b.live ==> r == b
  {
    if b.live then b.(db := b.db.(res := b.db.res.Touch())) else b
  }

  // ---------------------------------------------------------------------
  // db_del and cursor_del

  /** db_del, the __gc metamethod of the database userdata: releases the
      instance when the pointer is non-null, then nulls the pointer. */
  function DbDel(b: DbBox): (r: DbBox)
    ensures !r.live
    ensures r.db.res.releases == b.db.res.releases + (if b.live then 1 else 0)
    ensures r.db.res.usedAfterRelease == b.db.res.usedAfterRelease
    ensures r.db.engineOpen == b.db.engineOpen && r.db.closeCalls == b.db.closeCalls
    ensures DbTracked(b) ==> DbTracked(r) && r.db.res.releases == 1
  {
    if b.live then DbBox(false, b.db.(res := b.db.res.Free())) else b
  }

  /** cursor_del: releases the result list when the pointer is non-null,
      then nulls the pointer. The binding defines it but never registers it
      as a metamethod (the cursor metatable gets only `__index`), so no
      collection runs it; the model covers its body only. */
  function CursorDel(c: CursorBox): (r: CursorBox)
    ensures !r.live
    ensures r.list.releases == c.list.releases + (if c.live then 1 else 0)
    ensures r.list.usedAfterRelease == c.list.usedAfterRelease
    ensures Tracked(c.live, c.list) ==> Tracked(r.live, r.list) && r.list.releases == 1
  {
    if c.live then CursorBox(false, c.list.Free()) else c
  }

  /** `n` successive runs of db_del. */
  function DbDelTimes(b: DbBox, n: nat): DbBox
    decreases n
  {
    if n == 0 then b else DbDelTimes(DbDel(b), n - 1)
  }

  /** `n` successive runs of cursor_del. */
  function CursorDelTimes(c: CursorBox, n: nat): CursorBox
    decreases n
  {
    if n == 0 then c else CursorDelTimes(CursorDel(c), n - 1)
  }

  /** Running the database finalizer any positive number of times has the
      effect of running it once: the instance is released exactly once. */
  lemma {:induction false} DbDelReleasesOnce(b: DbBox, n: nat)
    requires DbTracked(b) && n >= 1
    decreases n
    ensures DbDelTimes(b, n) == DbDel(b)
    ensures DbDelTimes(b, n).db.res.releases == 1 && DbDelTimes(b, n).db.res.Sound()
  {
    if n > 1 {
      DbDelReleasesOnce(DbDel(b), n - 1);
    }
  }

  /** Running cursor_del any positive number of times releases the result
      list exactly once. */
  lemma {:induction false} CursorDelReleasesOnce(c: CursorBox, n: nat)
    requires Tracked(c.live, c.list) && n >= 1
    decreases n
    ensures CursorDelTimes(c, n) == CursorDel(c)
    ensures CursorDelTimes(c, n).list.releases == 1 && CursorDelTimes(c, n).list.Sound()
  {
    if n > 1 {
      CursorDelReleasesOnce(CursorDel(c), n - 1);
    }
  }

  // ---------------------------------------------------------------------
  // close

  /** The state after a call and what the call returned to Lua. */
  datatype Step = Step(box: DbBox, out: Outcome<()>)

  /** db_close: asks the engine to close the instance when the pointer is
      non-null and raises the engine's error when that fails. The pointer is
      never nulled, so the instance stays owned by the finalizer. */
  function DbClose(b: DbBox, close: EngineCall): (r: Step)
    ensures r.box.live == b.live
    ensures r.box.db.res.releases == b.db.res.releases
    ensures r.box.db.closeCalls == b.db.closeCalls + (if b.live then 1 else 0)
    ensures r.out.Raise? <==> b.live && close.Fails?
    ensures r.out.Raise? ==> r.out.error == EngineFault(close.code)
    ensures b.live && close.Succeeds? ==> !r.box.db.engineOpen
    ensures !b.live ==> r.box == b
    ensures DbTracked(b) ==> DbTracked(r.box)
  {
    if !b.live then Step(b, Ok(()))
    else
      // ejdbclose(db)
      var used := UseDb(b);
      var called := used.(db := used.db.(closeCalls := used.db.closeCalls + 1));
      match close
      case Succeeds => Step(called.(db := called.db.(engineOpen := false)), Ok(()))
      // EJDBERR reads ejdbecode(db)
      case Fails(code) => Step(UseDb(called), Raise(EngineFault(code)))
  }

  /** Closing does not tombstone: a later finalizer still releases the
      instance, exactly once, whatever the close returned. */
  lemma CloseThenFinalize(b: DbBox, close: EngineCall)
    requires DbTracked(b) && b.live
    ensures var after := DbDel(DbClose(b, close).box);
      after.db.res.releases == 1 && after.db.res.Sound()
  {
  }

  /** Closing twice asks the engine to close twice: the binding does not
      remember the first close, so whether the second one succeeds is up to
      the engine. */
  lemma CloseTwiceCallsEngineTwice(b: DbBox, first: EngineCall, second: EngineCall)
    requires b.live
    ensures var r1 := DbClose(b, first);
      var r2 := DbClose(r1.box, second);
      && r2.box.db.closeCalls == b.db.closeCalls + 2
      && (r2.out.Raise? <==> second.Fails?)
  {
  }

  // ---------------------------------------------------------------------
  // find

  /** The arguments of db_find after `self`: collection name, query
      document, table of OR-joined documents, hints document. */
  datatype FindArgs = FindArgs(cname: Arg, query: Arg, orJoined: Arg, hints: Arg)

  /** The argument checks db_find makes before its guard. */
  predicate FindArgsChecked(a: FindArgs) {
    IsStringArg(a.cname) && IsStringArg(a.query) && a.orJoined.Table? && IsStringArg(a.hints)
  }

  /** db_find up to its handle guard (the rest of its body produces no
      result). Each argument is checked in order, then a tombstoned handle is
      rejected with "Illegal arguments". The guard does not look at whether
      the engine still has the instance open. */
  function DbFind(b: DbBox, args: FindArgs): (r: Outcome<()>)
    ensures r.Ok? <==> FindArgsChecked(args) && b.live
    ensures r == Raise(IllegalArguments) <==> FindArgsChecked(args) && !b.live
    ensures r.Raise? && r.error.BadArgument? ==> 2 <= r.error.position <= 5
    ensures !IsStringArg(args.cname) ==> r == Raise(BadArgument(2))
    ensures IsStringArg(args.cname) && !IsStringArg(args.query) ==> r == Raise(BadArgument(3))
    ensures IsStringArg(args.cname) && IsStringArg(args.query) && !args.orJoined.Table? ==>
      r == Raise(BadArgument(4))
    ensures (IsStringArg(args.cname) && IsStringArg(args.query) && args.orJoined.Table?
             && !IsStringArg(args.hints)) ==>
      r == Raise(BadArgument(5))
  {
    if !IsStringArg(args.cname) then Raise(BadArgument(2))
    else if !IsStringArg(args.query) then Raise(BadArgument(3))
    else if !args.orJoined.Table? then Raise(BadArgument(4))
    else if !IsStringArg(args.hints) then Raise(BadArgument(5))
    else if !b.live then Raise(IllegalArguments)
    else Ok(())
  }

  /** After the finalizer has run, find rejects the handle. */
  lemma FindAfterFinalizer(b: DbBox, args: FindArgs)
    requires FindArgsChecked(args)
    ensures DbFind(DbDel(b), args) == Raise(IllegalArguments)
  {
  }

  /** After a successful close, find still passes its guard: close leaves
      the pointer in place and the guard only tests the pointer. */
  lemma FindAfterClosePassesGuard(b: DbBox, args: FindArgs)
    requires b.live && FindArgsChecked(args)
    ensures var closed := DbClose(b, Succeeds).box;
      !closed.db.engineOpen && DbFind(closed, args).Ok?
  {
  }

  // ---------------------------------------------------------------------
  // save

  /** What db_save leaves behind: the userdata, the document buffer (once
      it has been initialised), the merge flag handed to the engine, whether
      the engine was called with a NULL instance, and the result. */
  datatype SaveRun = SaveRun(box: DbBox, doc: Option<Resource>, merge: bool, nullHandle: bool, out: Outcome<seq<char>>)

  /** The merge flag: false unless the fourth argument is a boolean, in
      which case it is that boolean. */
  function MergeFlag(a: Arg): (merge: bool)
    ensures merge <==> a == Bool(true)
    ensures !a.Bool? ==> !merge
  {
    if a.Bool? then a.b else false
  }

  predicate SaveArgsChecked(cname: Arg, doc: Arg) {
    IsStringArg(cname) && IsStringArg(doc)
  }

  /** db_save: check the collection name and the document, wrap the document
      in a buffer, create the collection if missing, save, and return the new
      object identifier as text. The buffer is destroyed on the save-failure
      path and on success, but not when the collection cannot be created.
      The pointer is used without a null check. */
  function DbSave(b: DbBox, cname: Arg, doc: Arg, mergeArg: Arg,
                  create: EngineCall, save: EngineCall, oid: Oid): (r: SaveRun)
    ensures r.box.live == b.live && r.box.db.res.releases == b.db.res.releases
    ensures DbTracked(b) ==> r.box == b
    ensures r.doc.Some? <==> SaveArgsChecked(cname, doc)
    ensures r.doc.Some? ==> !r.doc.value.usedAfterRelease
    ensures r.doc.Some? ==> (r.doc.value.releases == 1 <==> create.Succeeds?)
    ensures r.doc.Some? ==> (r.doc.value.releases == 0 <==> create.Fails?)
    ensures SaveArgsChecked(cname, doc) ==> r.merge == (mergeArg == Bool(true))
    ensures r.nullHandle <==> SaveArgsChecked(cname, doc) && !b.live
    ensures r.out.Ok? <==> SaveArgsChecked(cname, doc) && create.Succeeds? && save.Succeeds?
    ensures r.out.Ok? ==> |r.out.value| == 24 && r.out.value == HexOf(oid) && BytesOf(r.out.value) == oid
    ensures !IsStringArg(cname) ==> r.out == Raise(BadArgument(2))
    ensures IsStringArg(cname) && !IsStringArg(doc) ==> r.out == Raise(BadArgument(3))
    ensures SaveArgsChecked(cname, doc) && create.Fails? ==> r.out == Raise(EngineMessage(create.code))
    ensures SaveArgsChecked(cname, doc) && create.Succeeds? && save.Fails? ==> r.out == Raise(EngineMessage(save.code))
  {
    if !IsStringArg(cname) then SaveRun(b, None, false, false, Raise(BadArgument(2)))
    else if !IsStringArg(doc) then SaveRun(b, None, false, false, Raise(BadArgument(3)))
    else
      // bson_init_finished_data
      var buffer := Fresh;
      var merge := MergeFlag(mergeArg);
      // ejdbcreatecoll(jb, ...)
      var b1 := UseDb(b);
      match create
      // set_ejdb_error(jb) reads the error code; the buffer is not destroyed
      case Fails(code) => SaveRun(UseDb(b1), Some(buffer), merge, !b.live, Raise(EngineMessage(code)))
      case Succeeds =>
        // ejdbsavebson2(coll, ...)
        var b2 := UseDb(b1);
        match save
        case Fails(code) =>
          SaveRun(UseDb(b2), Some(buffer.Free()), merge, !b.live, Raise(EngineMessage(code)))
        case Succeeds =>
          HexRoundTrip(oid);
          SaveRun(b2, Some(buffer.Free()), merge, !b.live, Ok(CString(OidBuffer(oid))))
  }

  /** Saving through a tombstoned handle hands the engine a NULL instance:
      unlike db_find, db_save has no guard. */
  lemma SaveAfterFinalizerPassesNull(b: DbBox, cname: Arg, doc: Arg, mergeArg: Arg,
                                     create: EngineCall, save: EngineCall, oid: Oid)
    requires SaveArgsChecked(cname, doc)
    ensures DbSave(DbDel(b), cname, doc, mergeArg, create, save, oid).nullHandle
  {
  }

  // ---------------------------------------------------------------------
  // open

  /** What db_open leaves behind. `Refused`: nothing was allocated.
      `Released`: an instance was created, then released before any
      userdata owned it. `Boxed`: a userdata owns the instance; `out` is what
      the call returned. */
  datatype OpenRun =
    | Refused(error: LuaError)
    | Released(db: Db, error: LuaError)
    | Boxed(box: DbBox, out: Outcome<()>)

  /** The resource side of db_open as written: ejdbnew, ejdbopen, then the
      userdata, then two late sanity checks (`stackOk`, `tableOk`) whose
      failure releases the instance and tombstones the pointer before raising.
      When ejdbopen fails the instance is released and the error code is then
      read from it. */
  function OpenAsWritten(create: bool, open: EngineCall, stackOk: bool, tableOk: bool): (r: OpenRun)
    ensures r.Refused? <==> !create
    ensures r.Refused? ==> r.error == InstanceUnavailable
    ensures r.Released? <==> create && open.Fails?
    ensures r.Released? ==> r.error == EngineFault(open.code)
    ensures r.Released? ==> r.db.res.releases == 1 && r.db.res.usedAfterRelease
    ensures r.Boxed? ==> DbTracked(r.box) && r.box.db.engineOpen && r.box.db.closeCalls == 0
    ensures r.Boxed? ==> (r.box.live <==> r.out.Ok?)
    ensures r.Boxed? && r.out.Ok? <==> create && open.Succeeds? && stackOk && tableOk
    ensures r.Boxed? && !stackOk ==> r.out == Raise(StackState)
  {
    if !create then Refused(InstanceUnavailable)
    else
      match open
      // ejdbdel(db), then EJDBERR reads ejdbecode(db)
      case Fails(code) => Released(Db(Fresh.Free().Touch(), false, 0), EngineFault(code))
      case Succeeds => BoxAndCheck(Db(Fresh, true, 0), stackOk, tableOk)
  }

  /** The part of db_open after the userdata exists. Each failing check calls
      ejdbdel and nulls the pointer before raising. */
  function BoxAndCheck(db: Db, stackOk: bool, tableOk: bool): (r: OpenRun)
    requires db.res == Fresh
    ensures r.Boxed? && DbTracked(r.box) && r.box.db.engineOpen == db.engineOpen
    ensures r.box.db.closeCalls == db.closeCalls
    ensures r.box.live <==> r.out.Ok?
    ensures r.out.Ok? <==> stackOk && tableOk
    ensures !stackOk ==> r.out == Raise(StackState)
    ensures stackOk && !tableOk ==> r.out == Raise(TableNotOnTop)
  {
    var tombstoned := DbBox(false, db.(res := db.res.Free()));
    if !stackOk then Boxed(tombstoned, Raise(StackState))
    else if !tableOk then Boxed(tombstoned, Raise(TableNotOnTop))
    else Boxed(DbBox(true, db), Ok(()))
  }

  /** Any failure of ejdbopen reads the error code of a released instance. */
  lemma OpenFailureReadsReleasedInstance(code: int, stackOk: bool, tableOk: bool)
    ensures var r := OpenAsWritten(true, Fails(code), stackOk, tableOk);
      r.Released? && !r.db.res.Sound()
  {
  }

  /** db_open with the error code read before the instance is released. */
  function OpenCorrected(create: bool, open: EngineCall, stackOk: bool, tableOk: bool): (r: OpenRun)
    ensures r.Refused? <==> !create
    ensures r.Released? <==> create && open.Fails?
    ensures r.Released? ==> r.error == EngineFault(open.code)
    ensures r.Released? ==> r.db.res.releases == 1 && r.db.res.Sound()
    ensures r.Boxed? ==> DbTracked(r.box) && (r.box.live <==> r.out.Ok?)
    ensures r.Boxed? && r.out.Ok? <==> create && open.Succeeds? && stackOk && tableOk
  {
    if !create then Refused(InstanceUnavailable)
    else
      match open
      case Fails(code) => Released(Db(Fresh.Touch().Free(), false, 0), EngineFault(code))
      case Succeeds => BoxAndCheck(Db(Fresh, true, 0), stackOk, tableOk)
  }

  /** The correction only changes the ejdbopen failure path. */
  lemma OpenCorrectedAgrees(create: bool, open: EngineCall, stackOk: bool, tableOk: bool)
    requires !(create && open.Fails?)
    ensures OpenCorrected(create, open, stackOk, tableOk) == OpenAsWritten(create, open, stackOk, tableOk)
  {
  }

  /** db_open: check the path, decode the mode, then create, open and box
      the instance as written. */
  method DbOpen(path: Arg, modeArg: Arg, create: bool, open: EngineCall,
                stackOk: bool, tableOk: bool) returns (mode: int, r: OpenRun)
    ensures !IsStringArg(path) ==> r == Refused(BadArgument(1))
    ensures IsStringArg(path) ==> r == OpenAsWritten(create, open, stackOk, tableOk)
    ensures IsStringArg(path) && modeArg.Str? ==> mode == ModeOfChars(CharsOf(CString(modeArg.s)))
    ensures IsStringArg(path) && !modeArg.Num? && !modeArg.Str? ==> mode == DEFAULT_OPEN_MODE
    ensures IsStringArg(path) && modeArg.Num? ==> mode == ToCInt(modeArg.n)
    ensures IsStringArg(path) && modeArg.Num? && -0x8000_0000 <= modeArg.n < 0x8000_0000 ==> mode == modeArg.n
  {
    mode := DEFAULT_OPEN_MODE;
    if !IsStringArg(path) {
      r := Refused(BadArgument(1));
      return;
    }
    mode := DecodeOpenMode(modeArg);
    r := OpenAsWritten(create, open, stackOk, tableOk);
  }

  // ---------------------------------------------------------------------
  // Sessions

  /** One call a Lua program can make on an open database, with the engine
      outcomes that call meets. A raised error does not end the session: the
      program may catch it with pcall. `Collect` is the garbage collector
      running the finalizer. */
  datatype DbCall =
    | Close(close: EngineCall)
    | Find(args: FindArgs)
    | Save(cname: Arg, doc: Arg, mergeArg: Arg, create: EngineCall, save: EngineCall, oid: Oid)
    | Collect

  function Apply(b: DbBox, call: DbCall): DbBox {
    match call
    case Close(close) => DbClose(b, close).box
    case Find(_) => b
    case Save(cname, doc, mergeArg, create, save, oid) => DbSave(b, cname, doc, mergeArg, create, save, oid).box
    case Collect => DbDel(b)
  }

  function Run(b: DbBox, calls: seq<DbCall>): DbBox
    decreases calls
  {
    if calls == [] then b else Run(Apply(b, calls[0]), calls[1..])
  }

  /** Whatever a program does with a database handle, the instance is
      released at most once and never touched after release; once the
      finalizer has run, it has been released exactly once. */
  lemma {:induction false} SessionReleasesOnce(b: DbBox, calls: seq<DbCall>)
    requires DbTracked(b)
    ensures DbTracked(Run(b, calls))
    ensures Run(b, calls).db.res.Sound()
    ensures Collect in calls ==> !Run(b, calls).live && Run(b, calls).db.res.releases == 1
    decreases calls
  {
    if calls != [] {
      var next := Apply(b, calls[0]);
      SessionReleasesOnce(next, calls[1..]);
      if Collect in calls && calls[0] != Collect {
        assert Collect in calls[1..];
      }
      if calls[0] == Collect {
        TombstoneStays(next, calls[1..]);
      }
    }
  }

  /** Nothing revives a tombstoned handle. */
  lemma {:induction false} TombstoneStays(b: DbBox, calls: seq<DbCall>)
    requires DbTracked(b) && !b.live
    ensures !Run(b, calls).live && Run(b, calls).db.res.releases == 1
    decreases calls
  {
    if calls != [] {
      TombstoneStays(Apply(b, calls[0]), calls[1..]);
    }
  }

  /** From open to the final collection: every handle db_open hands out, or
      tombstones on an early-release path, is released exactly once by the
      end of any session. */
  lemma OpenedSessionReleasesOnce(create: bool, open: EngineCall, stackOk: bool, tableOk: bool,
                                  calls: seq<DbCall>)
    requires OpenAsWritten(create, open, stackOk, tableOk).Boxed?
    ensures var end := Run(OpenAsWritten(create, open, stackOk, tableOk).box, calls + [Collect]);
      !end.live && end.db.res.releases == 1 && end.db.res.Sound()
  {
    var b := OpenAsWritten(create, open, stackOk, tableOk).box;
    SessionReleasesOnce(b, calls + [Collect]);
    assert (calls + [Collect])[|calls|] == Collect;
  }
}
