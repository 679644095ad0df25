# luaejdb — the open-mode decoder and the native-handle lifecycle

`luaejdb.c` binds the EJDB embedded document store to Lua. This project
models its two pieces that have behaviour of their own:

- how `db_open` turns its second argument into the engine's open-mode
  bitmask;
- how the binding owns the native objects it creates. These are the engine
  instance behind the database userdata, the result list behind a cursor
  userdata, and the document buffer `db_save` wraps. The model covers the
  finalizer `db_del`, `db_close`, the release paths of `db_open`, the
  handle guard of `db_find`, and the buffer release in `db_save`. It also
  covers the body of `cursor_del`. That function is never registered as a
  metamethod: the cursor metatable gets only `__index` (luaejdb.c:276-282),
  and the only `__gc` registration is `db_del` (luaejdb.c:233-234). So no
  collection ever runs `cursor_del`.

Modules:

- `LuaHost` (`lua_host.dfy`): Lua arguments as the binding classifies them
  (`Arg`), the errors it raises (`LuaError`), call outcomes, engine-call
  outcomes (`EngineCall`), and `CString`, the NUL-terminated view C code has
  of a Lua string.
- `OpenMode` (`open_mode.dfy`): the `JBO*` flags, the 32-bit C `int`
  conversion of a numeric mode, and the scanning loop for mode strings.
  `ModeOfChars` is its reference definition: the mode as a function of the
  set of characters present.
- `ObjectId` (`object_id.dfy`): the 24-digit hexadecimal text of a 12-byte
  object id in its 25-byte buffer, with its inverse.
- `Handles` (`handles.dfy`): userdata boxes, release bookkeeping, and every
  lifecycle operation as a pure step function. It also holds the session
  lemma: across any sequence of close, find, save and collection, the
  instance is released at most once and never touched after release.

A userdata box is *live* while its pointer is non-null and *tombstoned*
once the binding has nulled it. Each native object carries a `Resource`
record with a release counter and an "accessed after release" flag. These
are ordinary fields kept for the proofs; the binding never reads them. Every
engine or library call is an abstract step, and only its effect on the
bookkeeping is modelled. For `ejdbopen`, `ejdbclose`, `ejdbcreatecoll` and
`ejdbsavebson2`, success or failure and the error code are inputs to the
model. `ejdbnew` only succeeds or fails: a NULL result carries no code. The
release calls `ejdbdel`, `tclistdel` and `bson_destroy` return nothing and are
modelled as an unconditional release.

In four places the code behaves differently from what a user of the API
would expect. The model follows the code:

- Closing is not idempotent inside the binding. `db_close` calls the engine's
  close on every call with a non-null pointer and raises if that fails
  (`CloseTwiceCallsEngineTwice`).
- `db_find` rejects only a tombstoned handle. A handle that was closed
  successfully still passes its guard (`FindAfterClosePassesGuard`).
- The empty mode string gives mode 0, not reader. Reader is ORed in once per
  character scanned.
- `db_save` does not destroy the document buffer when the collection cannot
  be created. It also has no null check on the instance pointer
  (`SaveAfterFinalizerPassesNull`).

The flag values come from the engine's header, which is not part of this
model. Each `JBO*` flag is taken to be its own bit, in registration order:
reader 1, writer 2, create 4, truncate 8, no-lock 16, non-blocking lock 32,
sync 64.

## Model

| member | source | states |
|---|---|---|
| LuaHost.CString | luaejdb.c:200 | The characters a C loop sees in a Lua string: a prefix of it that contains no NUL and stops at the first NUL, or at the end if there is none. |
| LuaHost.CStringConcat | luaejdb.c:200 | A NUL-free prefix is passed through unchanged: the C view of `a + b` is `a` followed by the C view of `b`. |
| OpenMode.ToCInt | luaejdb.c:196 | A numeric mode that fits in a C `int` is passed through unchanged. Any other integer keeps its value modulo 2^32. |
| OpenMode.ModeOfChars | luaejdb.c:198-216 | Reference definition of the string mode. Reader is set iff the string is non-empty. Writer, create, truncate and sync are set iff `w`, `c`, `t` and `s` occur. No-lock and non-blocking lock are never set, and the mode is 0 iff the set is empty. |
| OpenMode.SwitchFlag | luaejdb.c:203-214 | The switch ORs in writer, create, truncate or sync for `w`, `c`, `t` or `s` and leaves the mode unchanged for any other character. The result is the mode itself or the mode plus that one flag, so nothing else is set. For a mode below 0x80 the selected bit is set afterwards and no flag bit is cleared. Reader is kept. |
| OpenMode.ScanChar | luaejdb.c:201-215 | One turn of the scanning loop never decreases the mode, always leaves reader set, and never clears any of the seven flag bits of a mode below 0x80. A character other than `w`, `c`, `t` and `s` leaves a mode that already has reader unchanged. |
| OpenMode.ScanCharAdds | luaejdb.c:201-215 | One turn of the scanning loop (OR reader in, then the switch) turns the mode of a character set into the mode of that set plus the scanned character. |
| OpenMode.ModeOfCharsEqual | luaejdb.c:200-216 | Two strings select the same mode iff they agree on being empty and on containing each of `w`, `c`, `t` and `s`. All other characters are ignored. |
| OpenMode.ParseModeString | luaejdb.c:198-216 | The scanning loop starts from 0 and stops at the first NUL. Its result is `ModeOfChars` of the characters before that NUL, and it is 0 iff no character precedes it. |
| OpenMode.DecodeOpenMode | luaejdb.c:194-217 | Default writer+create+sync unless the argument is a number or a string. A number becomes the C `int` it is stored into (`ToCInt`): kept as given when it fits, wrapped modulo 2^32 otherwise. A string is decoded by the scan: reader for any string whose first byte is not NUL, and never no-lock or non-blocking lock. |
| OpenMode.ModeStringConcat | luaejdb.c:200-216 | The mode of a NUL-free string followed by more text is the mode of the union of their character sets. |
| OpenMode.ModeStringOrderFree | luaejdb.c:200-216 | Reordering or repeating the characters of a NUL-free mode string leaves the mode unchanged. |
| ObjectId.HexOf | luaejdb.c:154-155 | The text of an id has two hexadecimal digits per byte, so 24 digits for a 12-byte id. The lower-case, high-nibble-first mapping is an assumption about the BSON library (see Left out). |
| ObjectId.HexRoundTrip | luaejdb.c:154-155 | Reading the hexadecimal text of an id back gives the original bytes. |
| ObjectId.HexInjective | luaejdb.c:154-155 | Distinct ids have distinct text. |
| ObjectId.OidBuffer | luaejdb.c:154-156 | The id buffer is 25 characters: 24 digits then a NUL. `lua_pushstring` reads exactly the 24 digits. |
| Handles.UseDb | luaejdb.c:121-124 | An engine call made through the userdata's pointer accesses the instance only when the pointer is non-null: on a tombstoned box it changes nothing at all. It never releases or nulls anything, and on a handle that respects ownership it changes nothing. |
| Handles.DbDel | luaejdb.c:107-115 | The finalizer releases the instance only through a non-null pointer, then nulls it. An owned instance ends released exactly once. |
| Handles.CursorDel | luaejdb.c:86-93 | `cursor_del` (defined but never registered as `__gc`) releases the result list only through a non-null pointer, then nulls it. An owned list ends released exactly once. |
| Handles.DbDelReleasesOnce | luaejdb.c:107-115 | Running the database finalizer n ≥ 1 times equals running it once: one release, nothing touched after it. |
| Handles.CursorDelReleasesOnce | luaejdb.c:86-93 | Running `cursor_del` n ≥ 1 times equals running it once: one release. |
| Handles.DbClose | luaejdb.c:117-128 | Close calls the engine only through a non-null pointer. It raises `EJDB ERROR` with the code iff that call fails. It never nulls the pointer and never releases the instance. |
| Handles.CloseThenFinalize | luaejdb.c:117-128 | After a close, whatever it returned, the finalizer still releases the instance exactly once. |
| Handles.CloseTwiceCallsEngineTwice | luaejdb.c:117-128 | A second close on a live handle calls the engine again, and raises iff that call fails. |
| Handles.DbFind | luaejdb.c:165-176 | Arguments 2 to 5 are checked in order. After that, "Illegal arguments" is raised iff the pointer is null, and the call passes iff the arguments are well-typed and the pointer is live. |
| Handles.FindAfterFinalizer | luaejdb.c:174-175 | After the finalizer, find rejects the handle with "Illegal arguments". |
| Handles.FindAfterClosePassesGuard | luaejdb.c:174-175 | After a successful close the engine has the instance closed, yet find passes its guard. |
| Handles.MergeFlag | luaejdb.c:141-144 | The merge flag is true iff the fourth argument is the boolean true. It is false for any non-boolean. |
| Handles.DbSave | luaejdb.c:130-158 | A non-string collection name raises bad argument #2; otherwise a non-string document raises bad argument #3. The buffer is created iff both arguments check. It is released exactly when collection creation succeeds: destroyed on save failure and on success, left alone on the creation-failure path. Result: the 24-digit text of the id, which reads back to the id, or the engine's message. The pointer stays as it was. |
| Handles.SaveAfterFinalizerPassesNull | luaejdb.c:135-145 | Saving through a tombstoned handle passes a NULL instance to the engine. |
| Handles.OpenAsWritten | luaejdb.c:219-260 | Nothing is allocated when `ejdbnew` fails. When `ejdbopen` fails the instance is released and then accessed. Otherwise a userdata owns the instance: it is live iff both late checks pass, and tombstoned and released once otherwise. |
| Handles.BoxAndCheck | luaejdb.c:230-260 | Each early-release path releases the instance and nulls the pointer before raising, so the ownership invariant holds on every path. |
| Handles.OpenFailureReadsReleasedInstance | luaejdb.c:225-227 | Every `ejdbopen` failure leaves an instance that was accessed after its release. |
| Handles.OpenCorrected | luaejdb.c:225-227 | With the error code read before `ejdbdel`, every path of open is sound: released at most once, never accessed after release. |
| Handles.OpenCorrectedAgrees | luaejdb.c:219-260 | The correction changes nothing outside the `ejdbopen` failure path. |
| Handles.DbOpen | luaejdb.c:191-262 | A non-string path is rejected as argument 1. Otherwise the mode is decoded as in `DecodeOpenMode`: a numeric mode becomes the C `int` it is stored into (`ToCInt`), kept as given when it fits. The instance goes through the paths of `OpenAsWritten`. |
| Handles.SessionReleasesOnce | luaejdb.c:107-176 | Start from a handle that respects ownership and apply any sequence of close, find, save and collection. Ownership still holds, the instance is released at most once and never accessed after release, and once collected it is released exactly once. |
| Handles.TombstoneStays | luaejdb.c:107-176 | No call brings a tombstoned handle back to life. |
| Handles.OpenedSessionReleasesOnce | luaejdb.c:219-260 | Every handle open hands out, or tombstones on an early path, is released exactly once by the end of any session that ends in collection. |

## Findings

| source | as written | input that shows it | evidently intended | confidence | as-written member | corrected member |
|---|---|---|---|---|---|---|
| luaejdb.c:225-227 | on `ejdbopen` failure, `ejdbdel(db)` releases the instance and `EJDBERR(L, db)` then calls `ejdbecode(db)` on it, twice | any `open` whose `ejdbopen` fails (for example a path in a directory that does not exist) | read the error code and message first, then release the instance | high; not executed | Handles.OpenAsWritten, Handles.OpenFailureReadsReleasedInstance | Handles.OpenCorrected |

`DbOpen` keeps the as-written behaviour, because it models the code.
`OpenCorrectedAgrees` shows the two definitions differ only on this path.
The session lemmas hold for both.

## Left out

- Lua stack plumbing is not modelled: `self` and userdata checks, metatable and registry setup, `luaopen_luaejdb`. The two late sanity checks of `db_open` are boolean inputs, because only their release paths matter here.
- Handles.DbSave: does not model the stack-depth check after the id is pushed (luaejdb.c:159-160). It raises after the buffer is destroyed and has no resource effect.
- Constant-table registration (`init_db_consts`, `TBLSETNUMCONST`) is left out. It is a list of pushes, and the values live in the engine's header.
- The BSON codec is not modelled, and document, query and hint contents are opaque. The code of `bson_oid_to_string` is not part of this model. `ObjectId.HexOf` assumes it writes two lower-case digits per byte, high nibble first, then a NUL. The binding itself only fixes the 25-byte buffer and reads it back as a C string.
- The storage engine is not modelled. Each call is an abstract success or failure with an error code, and error messages are not modelled. Whether the engine still considers an instance open after `ejdbdel` is not tracked.
- Host number semantics are not modelled: `lua_isnumber` accepting numeric strings, and `lua_tointeger` truncating non-integral numbers. `Arg.Num` carries the integer already converted.
- Handles.OpenAsWritten: on the `ejdbopen` failure path the error code is read through `ejdbecode` after `ejdbdel` has freed the instance (luaejdb.c:226-227), which is undefined behaviour in C. The model takes that read to yield the code `ejdbopen` left (`EngineFault(open.code)`). The C code promises neither that code nor that the read does not crash; the model records the read itself as an access after release.
- OpenMode.ToCInt: storing an out-of-range integer into a C `int` is implementation-defined in C. It is modelled as two's-complement wrap-around.
- Lua strings are byte strings. The model writes each byte as one `char`; only emptiness, the NUL byte and the ASCII letters `w`, `c`, `t` and `s` affect the modelled behaviour, so no encoding is involved.
- `luaL_checkstring` arguments are modelled only as accepted or rejected. Their text never affects the modelled behaviour.
- `set_ejdb_error` passes the engine message to `luaL_error` as a format string. Format directives inside a message are not modelled.
- `cursor_field`, `cursor_object`, `cursor_iter` and the body of `db_find` past its guard are stubs that return nothing (the unused `$or` array and `bson_print_raw` to stderr). No code path creates a cursor, so only `cursor_del` is modelled for cursors, and only its body: nothing registers it as a finalizer, so the model does not claim that a cursor's list is ever released by collection.
