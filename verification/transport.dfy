/**
 * The transport registry and the generic transport front end: lookup of a backend by name
 * in the link-time ordered table of operation sets, the `(a|b|c)` regular expression of
 * all backend names, and the dispatchers that forward a request to the selected backend
 * or refuse it with an error code.
 *
 * A backend's callbacks are outside the model: a dispatcher's result is `Forward` (the
 * backend callback is invoked and its value returned), a code the front end returns on
 * its own, or `NullCall` when the front end would call an absent callback unchecked.
 */
module Transport {
  import opened Wrappers
  import opened Bytes

  // Error codes of the transport layer; the front end returns their negations.
  const ETRANSSUCC: int := 0
  const ETRANSERR: int := 2
  const ETRANSNL80211ERR: int := 3
  const ETRANSFTDISPIERR: int := 4
  const ETRANSNOTSUP: int := 5
  const ETRANSNOMEM: int := 12
  const ETRANSNODEV: int := 19

  /**
   * Sizes of the command and response headers that prefix every payload. The header
   * structures are declared outside the modelled sources, so the sizes are parameters.
   */
  datatype Layout = Layout(commandHeader: nat, responseHeader: nat)

  /** A transport buffer: `data` is the whole zeroed region of `capacity` bytes. */
  datatype Buff = Buff(data: seq<bv8>, capacity: nat, dataLen: nat)

  /** The optional callbacks of an operation set. */
  datatype Cap =
    | ParseCap | InitCap | DeinitCap | WriteAlloc | ReadAlloc | Send
    | RegRead | RegWrite | MemRead | MemWrite
    | RawRead | RawWrite | RawReadWrite | ResetDevice | GetIfname

  /**
   * One entry of the operation table. `name == None` is the placeholder entry that keeps
   * the table non-empty; `callbacks` holds the callbacks that are not NULL.
   */
  datatype Ops = Ops(name: Option<string>, description: string, hasReset: bool,
                     hasDriver: bool, callbacks: set<Cap>)

  /** A transport instance; `tops == None` once it has been deinitialised. */
  datatype Inst = Inst(tops: Option<Ops>, debug: bool)

  // ---------------------------------------------------------------------------------------
  // The operation table
  // ---------------------------------------------------------------------------------------

  /** Names of the real (named) entries, in table order: what the table iterator visits. */
  function Names(table: seq<Ops>): (r: seq<string>)
    ensures |r| <= |table|
    ensures forall n :: n in r <==> exists i :: 0 <= i < |table| && table[i].name == Some(n)
  {
    if |table| == 0 then []
    else
      var rest := Names(table[1..]);
      assert forall i :: 0 < i < |table| ==> table[i] == table[1..][i - 1];
      assert forall i :: 0 <= i < |table| - 1 ==> table[1..][i] == table[i + 1];
      match table[0].name
      case None => rest
      case Some(n) => [n] + rest
  }

  /**
   * Names of a concatenated table are the names of its parts, in order; with a singleton
   * `b` this says that each named entry adds its name once, after those of the entries
   * before it.
   */
  lemma {:induction false} NamesAppend(a: seq<Ops>, b: seq<Ops>)
    ensures Names(a + b) == Names(a) + Names(b)
  {
    if |a| > 0 {
      assert (a + b)[1..] == a[1..] + b;
      NamesAppend(a[1..], b);
    } else {
      assert a + b == b;
    }
  }

  /** `find_transport_ops`: no name picks the first real entry, a name picks the first equal one. */
  predicate Matches(e: Ops, name: Option<string>) {
    e.name.Some? && (name.None? || e.name == name)
  }

  function Find(table: seq<Ops>, name: Option<string>): (r: Option<nat>)
    ensures r.Some? ==> r.value < |table| && Matches(table[r.value], name)
    ensures r.Some? ==> forall j :: 0 <= j < r.value ==> !Matches(table[j], name)
    ensures r.None? ==> forall j :: 0 <= j < |table| ==> !Matches(table[j], name)
  {
    if |table| == 0 then None
    else if Matches(table[0], name) then Some(0)
    else
      match Find(table[1..], name)
      case None => None
      case Some(i) => Some(i + 1)
  }

  /** A name is found exactly when it is one of the registered names. */
  lemma {:induction false} FindNamed(table: seq<Ops>, n: string)
    ensures Find(table, Some(n)).Some? <==> n in Names(table)
  {
    if Find(table, Some(n)).Some? {
      assert table[Find(table, Some(n)).value].name == Some(n);
    }
  }

  /** With no name the default is the first registered backend; dummies are never chosen. */
  lemma {:induction false} FindDefault(table: seq<Ops>)
    ensures Find(table, None).Some? <==> |Names(table)| > 0
    ensures Find(table, None).Some? ==> table[Find(table, None).value].name == Some(Names(table)[0])
    decreases |table|
  {
    if |table| > 0 && table[0].name.None? {
      FindDefault(table[1..]);
    }
  }

  /** `morsectrl_transport_driver_commands_supported`. */
  function DriverCommandsSupported(table: seq<Ops>): (r: bool)
    ensures r <==> exists i :: 0 <= i < |table| && table[i].name.Some? && table[i].hasDriver
  {
    if |table| == 0 then false
    else if table[0].name.Some? && table[0].hasDriver then true
    else
      var r := DriverCommandsSupported(table[1..]);
      assert forall i :: 0 < i < |table| ==> table[i] == table[1..][i - 1];
      r
  }

  // ---------------------------------------------------------------------------------------
  // The transport regular expression
  // ---------------------------------------------------------------------------------------

  /** Size of the regex allocation in bytes, terminator included. */
  const REGEX_MAXLEN: nat := 127

  /**
   * The test that makes the regex loop give up before writing a name of `nameLen` bytes at
   * offset `len`: as written it fires only on exact equality, corrected it fires whenever
   * the separator and name would not leave room.
   */
  datatype Guard = Exact | AtLeast

  predicate Stops(g: Guard, nameLen: nat, len: nat) {
    match g
    case Exact => nameLen + 1 == REGEX_MAXLEN - len
    case AtLeast => nameLen + 1 >= REGEX_MAXLEN - len
  }

  /**
   * Everything the loop writes into the allocation (`text`, from offset 0) and whether it
   * gave up. Writes happen at offsets `0 .. |text| - 1` whether or not the loop gave up.
   */
  datatype Built = Built(text: seq<char>, aborted: bool)

  /** `'('` before the first name, `'|'` before every other. */
  function Sep(acc: seq<char>): char {
    if |acc| == 0 then '(' else '|'
  }

  function Build(names: seq<string>, acc: seq<char>, g: Guard): (r: Built)
    ensures |r.text| >= |acc| && r.text[..|acc|] == acc
    decreases |names|
  {
    if |names| == 0 then Built(acc, false)
    else if Stops(g, |names[0]|, |acc|) then Built(acc, true)
    else
      var r := Build(names[1..], acc + [Sep(acc)] + names[0], g);
      assert r.text[..|acc|] == (acc + [Sep(acc)] + names[0])[..|acc|];
      r
  }

  /** The checks after the loop and the closing parenthesis. */
  function Finish(b: Built): Option<string> {
    if b.aborted || |b.text| == 0 || REGEX_MAXLEN - |b.text| <= 1 then None
    else Some(b.text + [')'])
  }

  /** `morsectrl_transport_get_regex` over the registered names, with guard `g`. */
  function Regex(names: seq<string>, g: Guard): Option<string> {
    Finish(Build(names, [], g))
  }

  /** Reference definition: the names joined by `'|'`. */
  function JoinBars(names: seq<string>): string
    requires |names| > 0
  {
    if |names| == 1 then names[0] else names[0] + "|" + JoinBars(names[1..])
  }

  /** The expression the regex is meant to be: `"(" + names joined by "|" + ")"`. */
  function RegexOf(names: seq<string>): string
    requires |names| > 0
  {
    "(" + JoinBars(names) + ")"
  }

  /** The loop without any guard. */
  function Accumulate(acc: seq<char>, names: seq<string>): seq<char>
    decreases |names|
  {
    if |names| == 0 then acc else Accumulate(acc + [Sep(acc)] + names[0], names[1..])
  }

  lemma {:induction false} AccumulateJoin(acc: seq<char>, names: seq<string>)
    requires |names| > 0
    ensures Accumulate(acc, names) == acc + [Sep(acc)] + JoinBars(names)
    decreases |names|
  {
    var next := acc + [Sep(acc)] + names[0];
    if |names| > 1 {
      AccumulateJoin(next, names[1..]);
      assert Sep(next) == '|';
      assert next + ['|'] + JoinBars(names[1..]) == acc + [Sep(acc)] + (names[0] + "|" + JoinBars(names[1..]));
    }
  }

  /** With the corrected guard the loop gives up exactly when the unguarded text would not fit. */
  lemma {:induction false} BuildAtLeast(names: seq<string>, acc: seq<char>)
    requires |acc| < REGEX_MAXLEN
    ensures var b := Build(names, acc, AtLeast);
            (b.aborted <==> |Accumulate(acc, names)| >= REGEX_MAXLEN)
            && (!b.aborted ==> b.text == Accumulate(acc, names))
            && |b.text| < REGEX_MAXLEN
    decreases |names|
  {
    if |names| > 0 {
      var next := acc + [Sep(acc)] + names[0];
      AccumulateGrows(next, names[1..]);
      if !Stops(AtLeast, |names[0]|, |acc|) {
        BuildAtLeast(names[1..], next);
      }
    }
  }

  lemma {:induction false} AccumulateGrows(acc: seq<char>, names: seq<string>)
    ensures |Accumulate(acc, names)| >= |acc|
    decreases |names|
  {
    if |names| > 0 {
      AccumulateGrows(acc + [Sep(acc)] + names[0], names[1..]);
    }
  }

  /**
   * Corrected regex: present exactly when there is a registered name and the whole
   * expression and its terminator fit the allocation; then it is the joined names.
   */
  lemma RegexCorrect(names: seq<string>)
    ensures Regex(names, AtLeast).Some? <==> |names| > 0 && |RegexOf(names)| < REGEX_MAXLEN
    ensures Regex(names, AtLeast).Some? ==> Regex(names, AtLeast).value == RegexOf(names)
  {
    BuildAtLeast(names, []);
    if |names| > 0 {
      AccumulateJoin([], names);
      assert RegexOf(names) == Accumulate([], names) + [')'];
    }
  }

  /** The corrected loop never writes at or beyond offset `REGEX_MAXLEN`. */
  lemma RegexInBounds(names: seq<string>)
    ensures |Build(names, [], AtLeast).text| < REGEX_MAXLEN
    ensures Regex(names, AtLeast).Some? ==> |Regex(names, AtLeast).value| < REGEX_MAXLEN
  {
    BuildAtLeast(names, []);
  }

  /** Whatever the guard wrote, the value returned is the same under both guards. */
  lemma {:induction false} GuardsAgree(names: seq<string>, acc: seq<char>)
    ensures Finish(Build(names, acc, Exact)) == Finish(Build(names, acc, AtLeast))
    decreases |names|
  {
    if |names| > 0 {
      var next := acc + [Sep(acc)] + names[0];
      if Stops(AtLeast, |names[0]|, |acc|) && !Stops(Exact, |names[0]|, |acc|) {
        assert |Build(names[1..], next, Exact).text| >= |next|;
      } else if !Stops(AtLeast, |names[0]|, |acc|) {
        GuardsAgree(names[1..], next);
      }
    }
  }

  /**
   * As written, a single name of 200 bytes passes the exact-equality guard and is copied
   * to offsets 1..200 of the 127-byte allocation; the function still returns NULL.
   */
  lemma RegexOverrun()
    ensures var names := [seq(200, i => 'a')];
            |Build(names, [], Exact).text| == 201 && Regex(names, Exact) == None
  {
    var names := [seq(200, i => 'a')];
    assert names[1..] == [];
  }

  /** The regex the front end serves: the corrected guard over the registered names. */
  function GetRegex(table: seq<Ops>): (r: Option<string>)
    ensures r.Some? <==> |Names(table)| > 0 && |RegexOf(Names(table))| < REGEX_MAXLEN
    ensures r.Some? ==> r.value == RegexOf(Names(table))
  {
    RegexCorrect(Names(table));
    Regex(Names(table), AtLeast)
  }

  // ---------------------------------------------------------------------------------------
  // Lifecycle and dispatch
  // ---------------------------------------------------------------------------------------

  /**
   * `morsectrl_transport_parse`: an unknown name fails with `-ETRANSNODEV` and no
   * transport; otherwise the chosen entry's own parse callback takes over.
   */
  function Parse(table: seq<Ops>, name: Option<string>): (r: Result<Ops, int>)
    ensures r.Failure? <==> forall j :: 0 <= j < |table| ==> !Matches(table[j], name)
    ensures r.Failure? ==> r.error == -ETRANSNODEV
    ensures r.Success? ==> r.value in table && Matches(r.value, name)
    ensures r.Success? ==> Find(table, name).Some? && r.value == table[Find(table, name).value]
  {
    match Find(table, name)
    case None => Failure(-ETRANSNODEV)
    case Some(i) => Success(table[i])
  }

  /** `morsectrl_transport_name`: the backend name, or `"<invalid>"` without a backend. */
  function Name(t: Option<Inst>): (r: Option<string>)
    ensures t.None? || t.value.tops.None? ==> r == Some("<invalid>")
    ensures t.Some? && t.value.tops.Some? ==> r == t.value.tops.value.name
  {
    if t.None? || t.value.tops.None? then Some("<invalid>") else t.value.tops.value.name
  }

  /**
   * What a front-end call does: invoke the backend callback, return a code itself, or
   * call through a NULL callback pointer (undefined behaviour in C).
   */
  datatype Call = Forward | Refuse(code: int) | NullCall

  /** Callbacks that the front end calls without checking they exist. */
  predicate Unchecked(c: Cap) {
    c in {ParseCap, Send, RawRead, RawWrite, RawReadWrite}
  }

  /** Callbacks whose absence the front end reports as not supported. */
  predicate ReportsNotSupported(c: Cap) {
    c in {RegWrite, MemRead, MemWrite, ResetDevice}
  }

  /** The int-returning dispatchers: init, send, register, memory, raw and reset calls. */
  predicate Dispatched(c: Cap) {
    c in {InitCap, Send, RegRead, RegWrite, MemRead, MemWrite, RawRead, RawWrite, RawReadWrite, ResetDevice}
  }

  /** A call the source can make without dereferencing a NULL callback. */
  predicate CanCall(t: Inst, c: Cap) {
    t.tops.Some? && Unchecked(c) ==> c in t.tops.value.callbacks
  }

  function Dispatch(t: Inst, c: Cap): (r: Call)
    requires Dispatched(c)
    ensures r == Forward <==> t.tops.Some? && c in t.tops.value.callbacks
    ensures r == NullCall <==> t.tops.Some? && c !in t.tops.value.callbacks && Unchecked(c)
    ensures r == NullCall <==> !CanCall(t, c)
    ensures r == Refuse(-ETRANSNOTSUP) <==>
              t.tops.Some? && c !in t.tops.value.callbacks && ReportsNotSupported(c)
    ensures r == Refuse(-ETRANSERR) <==>
              t.tops.None? || (c !in t.tops.value.callbacks && !ReportsNotSupported(c) && !Unchecked(c))
  {
    if t.tops.None? then Refuse(-ETRANSERR)
    else if c in t.tops.value.callbacks then Forward
    else if Unchecked(c) then NullCall
    else if ReportsNotSupported(c) then Refuse(-ETRANSNOTSUP)
    else Refuse(-ETRANSERR)
  }

  /** An absent register read or init is an error, never "not supported". */
  lemma AbsentReadIsError(t: Inst)
    requires t.tops.Some? && RegRead !in t.tops.value.callbacks && InitCap !in t.tops.value.callbacks
    ensures Dispatch(t, RegRead) == Refuse(-ETRANSERR)
    ensures Dispatch(t, InitCap) == Refuse(-ETRANSERR)
  {
  }

  /**
   * `morsectrl_transport_deinit`: the backend's deinit result (`backend`) if it has one,
   * success otherwise; the instance is left without operations either way.
   */
  function Deinit(t: Inst, backend: int): (r: (Inst, int))
    ensures r.0.tops.None? && r.0.debug == t.debug
    ensures t.tops.Some? && DeinitCap in t.tops.value.callbacks ==> r.1 == backend
    ensures t.tops.None? || DeinitCap !in t.tops.value.callbacks ==> r.1 == ETRANSSUCC
  {
    var ret := if t.tops.Some? && DeinitCap in t.tops.value.callbacks then backend else ETRANSSUCC;
    (t.(tops := None), ret)
  }

  /** After deinit every dispatcher refuses with `-ETRANSERR`, and the name is `"<invalid>"`. */
  lemma AfterDeinit(t: Inst, backend: int, c: Cap)
    requires Dispatched(c)
    ensures var d := Deinit(t, backend).0;
            Dispatch(d, c) == Refuse(-ETRANSERR) && Name(Some(d)) == Some("<invalid>")
            && !HasReset(Some(d)) && !HasDriver(Some(d))
            && !ForwardsIfname(d)
            && forall layout: Layout, size: nat :: CmdAlloc(d, layout, size) == NoBuffer
                 && RespAlloc(d, layout, size) == NoBuffer && RawAlloc(d, ReadAlloc, size).None?
                 && RawAlloc(d, WriteAlloc, size).None?
  {
  }

  /**
   * `has_reset`: the operation set's static flag, false without an instance or without
   * operations. The flag is read as declared; a reset request on an instance that
   * reports one is forwarded or refused as not supported, never failed outright.
   */
  function HasReset(t: Option<Inst>): (r: bool)
    ensures t.None? || t.value.tops.None? ==> !r
    ensures t.Some? && t.value.tops.Some? ==> (r <==> t.value.tops.value.hasReset)
    ensures r ==> Dispatch(t.value, ResetDevice) != Refuse(-ETRANSERR)
  {
    t.Some? && t.value.tops.Some? && t.value.tops.value.hasReset
  }

  /** `has_driver`: as `HasReset`, for the operation set's driver flag. */
  function HasDriver(t: Option<Inst>): (r: bool)
    ensures t.None? || t.value.tops.None? ==> !r
    ensures t.Some? && t.value.tops.Some? ==> (r <==> t.value.tops.value.hasDriver)
  {
    t.Some? && t.value.tops.Some? && t.value.tops.value.hasDriver
  }

  /**
   * The driver flag of a selected backend is one that `DriverCommandsSupported` sees:
   * an instance reporting a driver implies the table supports driver commands.
   */
  lemma DriverSeen(table: seq<Ops>, name: Option<string>, debug: bool)
    requires Parse(table, name).Success?
    ensures HasDriver(Some(Inst(Some(Parse(table, name).value), debug))) ==> DriverCommandsSupported(table)
  {
  }

  /** `get_ifname` invokes the backend only when it has the callback; otherwise NULL. */
  predicate ForwardsIfname(t: Inst) {
    t.tops.Some? && GetIfname in t.tops.value.callbacks
  }

  // ---------------------------------------------------------------------------------------
  // Buffers
  // ---------------------------------------------------------------------------------------

  /**
   * What `cmd_alloc` / `resp_alloc` do: return no buffer themselves, ask the backend's
   * allocator for `bytes`, or call a NULL allocator (undefined behaviour in C).
   */
  datatype Alloc = NoBuffer | Request(bytes: nat) | NullAlloc

  /**
   * `cmd_alloc(size)`: without operations no buffer; otherwise the backend's write
   * allocator is asked for the header plus `size` bytes. The callback is not checked.
   */
  function CmdAlloc(t: Inst, layout: Layout, size: nat): (r: Alloc)
    ensures r == NoBuffer <==> t.tops.None?
    ensures r == NullAlloc <==> t.tops.Some? && WriteAlloc !in t.tops.value.callbacks
    ensures r.Request? ==> r.bytes >= size && r.bytes - size == layout.commandHeader
  {
    if t.tops.None? then NoBuffer
    else if WriteAlloc !in t.tops.value.callbacks then NullAlloc
    else Request(layout.commandHeader + size)
  }

  /** `resp_alloc(size)`: as `CmdAlloc`, with the response header and the read allocator. */
  function RespAlloc(t: Inst, layout: Layout, size: nat): (r: Alloc)
    ensures r == NoBuffer <==> t.tops.None?
    ensures r == NullAlloc <==> t.tops.Some? && ReadAlloc !in t.tops.value.callbacks
    ensures r.Request? ==> r.bytes >= size && r.bytes - size == layout.responseHeader
  {
    if t.tops.None? then NoBuffer
    else if ReadAlloc !in t.tops.value.callbacks then NullAlloc
    else Request(layout.responseHeader + size)
  }

  /**
   * `raw_read_alloc` / `raw_write_alloc`: the request passed to the backend allocator, with
   * no header. A missing allocator gives no request instead of a NULL call; the backend may
   * still return no buffer (see `UartSlip.Alloc`).
   */
  function RawAlloc(t: Inst, c: Cap, size: nat): (r: Option<nat>)
    requires c == ReadAlloc || c == WriteAlloc
    ensures r.Some? <==> t.tops.Some? && c in t.tops.value.callbacks
    ensures r.Some? ==> r.value == size
  {
    if t.tops.None? || c !in t.tops.value.callbacks then None else Some(size)
  }

  /** `buff_free`: releasing no buffer is an error, releasing a buffer succeeds. */
  function BuffFree(b: Option<Buff>): (r: int)
    ensures r == ETRANSSUCC <==> b.Some?
    ensures b.None? ==> r == -ETRANSERR
  {
    if b.None? then -ETRANSERR else ETRANSSUCC
  }

  /** `set_cmd_data_length`: the data covers the command header and `length` payload bytes. */
  function SetCmdDataLength(b: Buff, layout: Layout, length: u16): (r: Buff)
    ensures r.data == b.data && r.capacity == b.capacity
    ensures r.dataLen - length == layout.commandHeader
  {
    b.(dataLen := layout.commandHeader + length)
  }

  /** A command buffer allocated for `size` payload bytes and then set to that length is full. */
  lemma SetLengthMatchesAlloc(t: Inst, layout: Layout, b: Buff, size: u16)
    requires t.tops.Some? && WriteAlloc in t.tops.value.callbacks
    ensures CmdAlloc(t, layout, size) == Request(SetCmdDataLength(b, layout, size).dataLen)
  {
  }
}
