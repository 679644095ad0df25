/** Values and failures at the boundary between the Lua host and the native
    binding, and the C-string view of host strings.

    The binding receives its arguments from the Lua stack; the model only needs
    to know which kind of value sits at each position. Raising a Lua error
    (luaL_error, a failed luaL_check*) is a non-local exit, modelled as the
    `Raise` outcome of the operation that raised it. */
module LuaHost {

  /** A Lua argument, classified the way the binding tests it. `NoValue` is an
      absent argument or nil; `Num` is a value lua_isnumber accepts, already
      converted by lua_tointeger. */
  datatype Arg = NoValue | Bool(b: bool) | Num(n: int) | Str(s: seq<char>) | Table | Other

  /** The errors the binding raises. */
  datatype LuaError =
    | BadArgument(position: nat)   // a luaL_check* call rejected the argument at `position`
    | InstanceUnavailable          // "Unable to create db instance"
    | EngineFault(code: int)       // EJDBERR: "EJDB ERROR <code>|<message of code>"
    | EngineMessage(code: int)     // set_ejdb_error: the engine's message for `code` alone
    | IllegalArguments             // the handle guard of db_find
    | StackState                   // "Invalid stack state"
    | TableNotOnTop                // "Table must be on top of lua stack"

  /** The result of a Lua C function: normal return with a value, or a raised error. */
  datatype Outcome<+T> = Ok(value: T) | Raise(error: LuaError)

  datatype Option<+T> = None | Some(value: T)

  /** The observable result of one call into the storage engine: success, or
      failure leaving `code` as the engine's error code. */
  datatype EngineCall = Succeeds | Fails(code: int)

  /** luaL_checkstring accepts strings and numbers and raises otherwise. */
  predicate IsStringArg(a: Arg) {
    a.Str? || a.Num?
  }

  /** The string a C function sees when it reads `s` as a NUL-terminated
      buffer: everything before the first NUL character. */
  function CString(s: seq<char>): (p: seq<char>)
    ensures p <= s
    ensures '\0' !in p
    ensures |p| < |s| ==> s[|p|] == '\0'
  {
    if s == [] || s[0] == '\0' then [] else [s[0]] + CString(s[1..])
  }

  /** The characters occurring in `s`, ignoring order and repetition. */
  function CharsOf(s: seq<char>): set<char> {
    set c | c in s
  }

  /** A NUL-free prefix passes through the C-string view unchanged. */
  lemma {:induction false} CStringConcat(a: seq<char>, b: seq<char>)
    requires '\0' !in a
    ensures CString(a + b) == a + CString(b)
  {
    if a == [] {
      assert a + b == b;
    } else {
      var ab := a + b;
      assert a[0] in a;
      assert ab[0] == a[0] != '\0';
      assert ab[1..] == a[1..] + b;
      CStringConcat(a[1..], b);
      assert CString(ab) == [a[0]] + (a[1..] + CString(b));
      assert [a[0]] + a[1..] == a;
    }
  }

  /** A string without NUL characters is read by C in full. */
  lemma CStringOfNulFree(s: seq<char>)
    requires '\0' !in s
    ensures CString(s) == s
  {
    CStringConcat(s, []);
    assert s + [] == s;
  }

  lemma CharsOfConcat(a: seq<char>, b: seq<char>)
    ensures CharsOf(a + b) == CharsOf(a) + CharsOf(b)
  {
  }
}
