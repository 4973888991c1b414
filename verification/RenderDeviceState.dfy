/** The device-state cache of yengine/renderer/render_device_state.cpp, which skips calls that would set what
    is already set, measured against a device that receives every call. The cached fields are one map
    from slots to IDs; the twelve methods that compare and set a single field are one method. */
module RenderDeviceState {
  import opened Options

  datatype Stage = Vertex | Pixel

  /** The cached fields, one slot per array element. */
  datatype Slot =
    | ViewPort | BlendState | RenderTarget(target: nat) | VertexDecl
    | FloatRegister(stage: Stage, register: nat)
    | SamplerState(stage: Stage, sampler: nat)
    | Texture(stage: Stage, sampler: nat)
    | VertexShader | PixelShader | IndexStream | VertexStream

  /** The ID made of ones that Reset writes: 8 bits wide, or 16 for textures, buffers and streams. */
  function Invalid(slot: Slot): nat {
    match slot
    case FloatRegister(_, _) => 0xFFFF
    case Texture(_, _) => 0xFFFF
    case IndexStream => 0xFFFF
    case VertexStream => 0xFFFF
    case _ => 0xFF
  }

  /** The width of the slot's IDs. */
  function IdBits(slot: Slot): nat {
    if slot.FloatRegister? || slot.Texture? || slot.IndexStream? || slot.VertexStream? then 16 else 8
  }

  function Pow2(n: nat): nat {
    if n == 0 then 1 else 2 * Pow2(n - 1)
  }

  /** It is the largest of the slot's IDs: all its bits are ones. */
  lemma InvalidIsAllOnes(slot: Slot)
    ensures Invalid(slot) == Pow2(IdBits(slot)) - 1
  {
    assert Pow2(8) == 256;
    assert Pow2(16) == 256 * Pow2(8);
  }

  predicate InRange(slot: Slot) {
    match slot
    case RenderTarget(t) => t < 4
    case FloatRegister(_, r) => r < 32
    case SamplerState(stage, s) => s < if stage == Vertex then 4 else 32
    case Texture(stage, s) => s < if stage == Vertex then 4 else 32
    case _ => true
  }

  /** What a slot of the device holds: an object, or part number k of a constant buffer. */
  datatype Content = Object(id: nat) | Part(id: nat, k: int)

  type Device = map<Slot, Content>

  /** A call: set one slot, or load a constant buffer of `count` registers from register `first` on. */
  datatype Call =
    | Set(slot: Slot, id: nat)
    | Load(stage: Stage, first: nat, count: nat, id: nat)

  /** The calls whose slots the cache has. */
  predicate InBounds(call: Call) {
    match call
    case Set(slot, _) => InRange(slot) && !slot.FloatRegister?
    case Load(_, first, count, _) => first + count <= 32
  }

  predicate AllInBounds(calls: seq<Call>) {
    forall k | 0 <= k < |calls| :: InBounds(calls[k])
  }

  function Registers(stage: Stage, first: nat, count: nat): set<Slot> {
    set r | first <= r < first + count :: FloatRegister(stage, r)
  }

  /** The slots a call writes. */
  function Targets(call: Call): set<Slot> {
    match call
    case Set(slot, _) => {slot}
    case Load(stage, first, count, _) => Registers(stage, first, count)
  }

  /** What a call writes into one of its slots. */
  function Written(call: Call, slot: Slot): Content {
    match call
    case Set(_, id) => Object(id)
    case Load(_, first, _, id) => Part(id, (if slot.FloatRegister? then slot.register else 0) - first)
  }

  // ----- the device and the cache -----

  /** The device after it has received the call. */
  function Receive(device: Device, call: Call): Device {
    device + map s | s in Targets(call) :: Written(call, s)
  }

  function ReceiveAll(device: Device, calls: seq<Call>): Device {
    if calls == [] then device else Receive(ReceiveAll(device, calls[..|calls| - 1]), calls[|calls| - 1])
  }

  /** A device behind the cache. */
  datatype Cached = Cached(device: Device, ids: map<Slot, nat>)

  /** The cache shows the call's ID in all its slots. */
  predicate Skips(ids: map<Slot, nat>, call: Call) {
    forall s | s in Targets(call) && s in ids :: ids[s] == call.id
  }

  function Noted(ids: map<Slot, nat>, call: Call): map<Slot, nat> {
    map s | s in ids :: if s in Targets(call) then call.id else ids[s]
  }

  /** After a call through the cache. */
  function Activated(c: Cached, call: Call): Cached {
    Cached(if Skips(c.ids, call) then c.device else Receive(c.device, call), Noted(c.ids, call))
  }

  function ActivatedAll(c: Cached, calls: seq<Call>): Cached {
    if calls == [] then c else Activated(ActivatedAll(c, calls[..|calls| - 1]), calls[|calls| - 1])
  }

  class RenderDeviceState {
    var cached: map<Slot, nat>
    var device: Device           // the device behind the calls that are made

    ghost predicate Valid()
      reads this
    {
      forall s | InRange(s) :: s in cached
    }

    ghost function State(): Cached
      reads this
    {
      Cached(device, cached)
    }

    constructor (device: Device)
      ensures Valid() && State() == Start(device)
    {
      SlotsExact();
      this.cached := AllInvalid();
      this.device := device;
    }

    method Reset()
      modifies this`cached
      ensures Valid() && State() == Start(device)
    {
      SlotsExact();
      cached := AllInvalid();
    }

    /** The methods that set one field. */
    method Activate(slot: Slot, id: nat)
      requires Valid() && InBounds(Set(slot, id))
      modifies this
      ensures Valid() && State() == Activated(old(State()), Set(slot, id))
      ensures cached == old(cached)[slot := id]
      ensures device == if old(cached)[slot] == id then old(device) else old(device)[slot := Object(id)]
    {
      if cached[slot] != id {
        device := device[slot := Object(id)];
        cached := cached[slot := id];
      }
      SetIsUpdate(old(State()), slot, id);
    }

    /** ActivateVertexFloatArg and ActivatePixelFloatArg. */
    method ActivateFloatArg(stage: Stage, first: nat, count: nat, id: nat)
      requires Valid() && InBounds(Load(stage, first, count, id))
      modifies this
      ensures Valid() && State() == Activated(old(State()), Load(stage, first, count, id))
      ensures Loaded(old(State()), State(), stage, first, count, id)
    {
      var update := NoteRegisters(stage, first, count, id);
      if update {
        device := Receive(device, Load(stage, first, count, id));
      }
      LoadIsUpdate(old(State()), stage, first, count, id);
    }

    /** The loop over the register range: whether some cached ID differs, and sets them all. */
    method NoteRegisters(stage: Stage, first: nat, count: nat, id: nat) returns (update: bool)
      requires Valid() && first + count <= 32
      modifies this`cached
      ensures Valid() && cached == Noted(old(cached), Load(stage, first, count, id))
      ensures update <==> !Skips(old(cached), Load(stage, first, count, id))
    {
      update := false;
      assert cached == Noted(cached, Load(stage, first, 0, id)) && Skips(cached, Load(stage, first, 0, id));
      for i := 0 to count
        invariant Valid() && cached == Noted(old(cached), Load(stage, first, i, id))
        invariant update <==> !Skips(old(cached), Load(stage, first, i, id))
      {
        var slot := FloatRegister(stage, first + i);
        assert InRange(slot);
        NotedStep(old(cached), stage, first, i, id);
        if cached[slot] != id {
          cached := cached[slot := id];
          update := true;
        }
      }
    }

    method ActivateAll(calls: seq<Call>)
      requires Valid() && AllInBounds(calls)
      modifies this
      ensures Valid() && State() == ActivatedAll(old(State()), calls)
    {
      for k := 0 to |calls|
        invariant Valid() && State() == ActivatedAll(old(State()), calls[..k])
      {
        assert calls[..k + 1][..k] == calls[..k];
        match calls[k] {
          case Set(slot, id) => Activate(slot, id);
          case Load(stage, first, count, id) => ActivateFloatArg(stage, first, count, id);
        }
      }
      assert calls[..|calls|] == calls;
    }
  }

  lemma SetIsUpdate(c: Cached, slot: Slot, id: nat)
    requires slot in c.ids
    ensures Activated(c, Set(slot, id)) ==
            Cached(if c.ids[slot] == id then c.device else c.device[slot := Object(id)], c.ids[slot := id])
  {
    assert Receive(c.device, Set(slot, id)) == c.device[slot := Object(id)];
    assert Noted(c.ids, Set(slot, id)) == c.ids[slot := id];
  }

  /** The cache shows the buffer in the registers from `first` on; the device holds its parts in them, unless the
      cache showed the buffer in all of them before. Nothing else has changed. */
  ghost predicate Loaded(c: Cached, c': Cached, stage: Stage, first: nat, count: nat, id: nat) {
    && c'.ids.Keys == c.ids.Keys
    && (forall s | s in c.ids :: c'.ids[s] == if InRegisters(s, stage, first, count) then id else c.ids[s])
    && if forall s | s in c.ids && InRegisters(s, stage, first, count) :: c.ids[s] == id then c'.device == c.device
       else HoldsParts(c.device, c'.device, stage, first, count, id)
  }

  ghost predicate HoldsParts(d: Device, d': Device, stage: Stage, first: nat, count: nat, id: nat) {
    forall s :: if InRegisters(s, stage, first, count) then s in d' && d'[s] == Part(id, s.register - first)
                else (s in d' <==> s in d) && (s in d ==> d'[s] == d[s])
  }

  predicate InRegisters(s: Slot, stage: Stage, first: nat, count: nat) {
    s.FloatRegister? && s.stage == stage && first <= s.register < first + count
  }

  lemma ReceiveHoldsParts(d: Device, stage: Stage, first: nat, count: nat, id: nat)
    ensures HoldsParts(d, Receive(d, Load(stage, first, count, id)), stage, first, count, id)
  {
    assert forall s :: s in Registers(stage, first, count) <==> InRegisters(s, stage, first, count);
  }

  lemma LoadIsUpdate(c: Cached, stage: Stage, first: nat, count: nat, id: nat)
    ensures Loaded(c, Activated(c, Load(stage, first, count, id)), stage, first, count, id)
  {
    assert forall s :: s in Registers(stage, first, count) <==> InRegisters(s, stage, first, count);
    ReceiveHoldsParts(c.device, stage, first, count, id);
  }

  lemma NotedStep(ids: map<Slot, nat>, stage: Stage, first: nat, i: nat, id: nat)
    requires FloatRegister(stage, first + i) in ids
    ensures var slot := FloatRegister(stage, first + i);
            var noted := Noted(ids, Load(stage, first, i, id));
            && slot in noted && noted[slot] == ids[slot]
            && noted[slot := id] == Noted(ids, Load(stage, first, i + 1, id))
            && (ids[slot] == id ==> noted == Noted(ids, Load(stage, first, i + 1, id)))
            && (Skips(ids, Load(stage, first, i + 1, id)) <==> Skips(ids, Load(stage, first, i, id)) && ids[slot] == id)
  {
    var slot := FloatRegister(stage, first + i);
    assert slot !in Registers(stage, first, i);
    assert Registers(stage, first, i + 1) == Registers(stage, first, i) + {slot};
  }

  function Slots(): set<Slot> {
    var stages := {Vertex, Pixel};
    {ViewPort, BlendState, VertexDecl, VertexShader, PixelShader, IndexStream, VertexStream}
    + (set t | 0 <= t < 4 :: RenderTarget(t))
    + (set stage, r | stage in stages && 0 <= r < 32 :: FloatRegister(stage, r))
    + (set stage, n | stage in stages && 0 <= n < (if stage == Vertex then 4 else 32) :: SamplerState(stage, n))
    + (set stage, n | stage in stages && 0 <= n < (if stage == Vertex then 4 else 32) :: Texture(stage, n))
  }

  lemma SlotsExact()
    ensures forall s :: s in Slots() <==> InRange(s)
  {
    forall s | InRange(s) ensures s in Slots() {
      match s
      case RenderTarget(t) => assert RenderTarget(t) in Slots();
      case FloatRegister(stage, _) => BothStages(stage);
      case SamplerState(stage, _) => BothStages(stage);
      case Texture(stage, _) => BothStages(stage);
      case _ =>
    }
  }

  lemma BothStages(stage: Stage)
    ensures stage in {Vertex, Pixel}
  {
    match stage
    case Vertex =>
    case Pixel =>
  }

  function AllInvalid(): map<Slot, nat> {
    map s | s in Slots() :: Invalid(s)
  }

  /** A device, in whatever state, behind a cache that has just been reset. */
  function Start(device: Device): Cached {
    Cached(device, AllInvalid())
  }

  // ----- the history of a slot -----

  /** The last call that wrote the slot. */
  function LastCall(calls: seq<Call>, slot: Slot): Option<Call> {
    if calls == [] then None
    else if slot in Targets(calls[|calls| - 1]) then Some(calls[|calls| - 1])
    else LastCall(calls[..|calls| - 1], slot)
  }

  function LastId(calls: seq<Call>, slot: Slot): nat {
    match LastCall(calls, slot)
    case Some(call) => call.id
    case None => Invalid(slot)
  }

  function First(call: Call): nat {
    if call.Load? then call.first else 0
  }

  lemma {:induction false} CacheShowsLast(device: Device, calls: seq<Call>, slot: Slot)
    requires InRange(slot)
    ensures var ids := ActivatedAll(Start(device), calls).ids; slot in ids && ids[slot] == LastId(calls, slot)
  {
    SlotsExact();
    if calls != [] {
      CacheShowsLast(device, calls[..|calls| - 1], slot);
    }
  }

  lemma {:induction false} DeviceHoldsLast(device: Device, calls: seq<Call>, slot: Slot)
    ensures var d := ReceiveAll(device, calls);
            match LastCall(calls, slot)
            case Some(call) => slot in Targets(call) && slot in d && d[slot] == Written(call, slot)
            case None => (slot in d <==> slot in device) && (slot in d ==> d[slot] == device[slot])
  {
    if calls != [] {
      DeviceHoldsLast(device, calls[..|calls| - 1], slot);
    }
  }

  lemma TargetsInRange(call: Call, s: Slot)
    requires InBounds(call) && s in Targets(call)
    ensures InRange(s) && (s.FloatRegister? <==> call.Load?)
  {
  }

  // ----- when the cache is right -----

  /** The call is stale: all its slots were last written with its ID (all ones counting as the ID of a slot
      not written yet), but not all of them by a call with the same first register. */
  ghost predicate Stale(calls: seq<Call>, call: Call) {
    && (forall s | s in Targets(call) :: LastId(calls, s) == call.id)
    && (exists s | s in Targets(call) :: OtherContent(calls, call, s))
  }

  ghost predicate OtherContent(calls: seq<Call>, call: Call, s: Slot) {
    LastCall(calls, s).None? || First(LastCall(calls, s).value) != First(call)
  }

  /** No slot of the device holds an object whose ID is all ones. */
  ghost predicate NoneInvalid(device: Device) {
    forall s | s in device :: device[s].id != Invalid(s)
  }

  /** After these calls the device behind the cache is as if it had received them all. */
  ghost predicate Same(device: Device, calls: seq<Call>) {
    ActivatedAll(Start(device), calls).device == ReceiveAll(device, calls)
  }

  /** So it is, and so it was before the last call, and before the last but one, and so on. */
  ghost predicate Agree(device: Device, calls: seq<Call>) {
    Same(device, calls) && (calls != [] ==> Agree(device, calls[..|calls| - 1]))
  }

  /** No call was stale when it came. */
  ghost predicate NeverStale(calls: seq<Call>) {
    calls != [] ==> !Stale(calls[..|calls| - 1], calls[|calls| - 1]) && NeverStale(calls[..|calls| - 1])
  }

  lemma SkipsIff(device: Device, calls: seq<Call>, call: Call)
    requires InBounds(call)
    ensures Skips(ActivatedAll(Start(device), calls).ids, call) <==>
            forall s | s in Targets(call) :: LastId(calls, s) == call.id
  {
    forall s | s in Targets(call)
      ensures var ids := ActivatedAll(Start(device), calls).ids; s in ids && ids[s] == LastId(calls, s)
    {
      TargetsInRange(call, s);
      CacheShowsLast(device, calls, s);
    }
  }

  /** Where the ID was last written, the content is the same if the first register was. */
  lemma SameContent(device: Device, calls: seq<Call>, call: Call, s: Slot)
    requires AllInBounds(calls) && InBounds(call)
    requires s in Targets(call) && LastId(calls, s) == call.id && !OtherContent(calls, call, s)
    ensures var d := ReceiveAll(device, calls); s in d && d[s] == Written(call, s)
  {
    DeviceHoldsLast(device, calls, s);
    TargetsInRange(call, s);
    LastIsInBounds(calls, s);
    TargetsInRange(LastCall(calls, s).value, s);
  }

  /** Otherwise it is another, if no object's ID is all ones. */
  lemma DifferentContent(device: Device, calls: seq<Call>, call: Call, s: Slot)
    requires AllInBounds(calls) && InBounds(call) && NoneInvalid(device)
    requires s in Targets(call) && LastId(calls, s) == call.id && OtherContent(calls, call, s)
    ensures var d := ReceiveAll(device, calls); !(s in d && d[s] == Written(call, s))
  {
    DeviceHoldsLast(device, calls, s);
    TargetsInRange(call, s);
    if LastCall(calls, s).Some? {
      LastIsInBounds(calls, s);
      TargetsInRange(LastCall(calls, s).value, s);
    }
  }

  lemma {:induction false} LastIsInBounds(calls: seq<Call>, s: Slot)
    requires AllInBounds(calls) && LastCall(calls, s).Some?
    ensures InBounds(LastCall(calls, s).value) && s in Targets(LastCall(calls, s).value)
  {
    if s !in Targets(calls[|calls| - 1]) {
      LastIsInBounds(calls[..|calls| - 1], s);
    }
  }

  lemma ReceiveChangesIff(d: Device, call: Call)
    ensures Receive(d, call) == d <==> forall s | s in Targets(call) :: s in d && d[s] == Written(call, s)
  {
    if forall s | s in Targets(call) :: s in d && d[s] == Written(call, s) {
      assert Receive(d, call) == d;
    } else {
      var s :| s in Targets(call) && !(s in d && d[s] == Written(call, s));
      assert s in Receive(d, call) && Receive(d, call)[s] == Written(call, s);
    }
  }

  /** A call that the cache skips, and that is not stale, changes nothing on the device that received them all. */
  lemma FreshSkipChangesNothing(device: Device, calls: seq<Call>, call: Call)
    requires AllInBounds(calls) && InBounds(call) && !Stale(calls, call)
    requires forall s | s in Targets(call) :: LastId(calls, s) == call.id
    ensures Receive(ReceiveAll(device, calls), call) == ReceiveAll(device, calls)
  {
    var d := ReceiveAll(device, calls);
    forall s | s in Targets(call) ensures s in d && d[s] == Written(call, s) {
      SameContent(device, calls, call, s);
    }
    ReceiveChangesIff(d, call);
  }

  /** One more call that is not stale keeps the devices equal, whatever the device held at first. */
  lemma FreshKeepsSame(device: Device, calls: seq<Call>, call: Call)
    requires AllInBounds(calls) && InBounds(call) && Same(device, calls) && !Stale(calls, call)
    ensures Same(device, calls + [call])
  {
    assert (calls + [call])[..|calls|] == calls;
    SkipsIff(device, calls, call);
    if forall s | s in Targets(call) :: LastId(calls, s) == call.id {
      FreshSkipChangesNothing(device, calls, call);
    }
  }

  /** One more call: the devices stay equal if and only if it is not stale. */
  lemma StaleIff(device: Device, calls: seq<Call>, call: Call)
    requires AllInBounds(calls) && InBounds(call) && NoneInvalid(device) && Same(device, calls)
    ensures Same(device, calls + [call]) <==> !Stale(calls, call)
  {
    if !Stale(calls, call) {
      FreshKeepsSame(device, calls, call);
    } else {
      assert (calls + [call])[..|calls|] == calls;
      SkipsIff(device, calls, call);
      var s :| s in Targets(call) && OtherContent(calls, call, s);
      DifferentContent(device, calls, call, s);
      ReceiveChangesIff(ReceiveAll(device, calls), call);
    }
  }

  /** Main result: for any sequence of calls in bounds, the device behind the cache is, after each of them, in
      the state it would be in if every call had reached it, if and only if no call is stale when it comes. */
  lemma {:induction false} AgreeIff(device: Device, calls: seq<Call>)
    requires AllInBounds(calls) && NoneInvalid(device)
    ensures Agree(device, calls) <==> NeverStale(calls)
    decreases |calls|
  {
    if calls != [] {
      var last := |calls| - 1;
      AgreeIff(device, calls[..last]);
      if Agree(device, calls[..last]) {
        assert calls[..last] + [calls[last]] == calls;
        StaleIff(device, calls[..last], calls[last]);
      }
    }
  }

  // ----- the renderer's use -----

  /** For each constant buffer of a stage, the register it is always loaded from. */
  type Layout = map<(Stage, nat), nat>

  /** An ID that is not all ones, and a constant buffer always loaded at the same register. */
  predicate Proper(layout: Layout, call: Call) {
    match call
    case Set(slot, id) => id != Invalid(slot)
    case Load(stage, first, _, id) => id != 0xFFFF && (stage, id) in layout && layout[(stage, id)] == first
  }

  /** If every constant buffer has its register, no call is ever stale, overlapping ranges included. */
  lemma {:induction false} ProperNeverStale(layout: Layout, calls: seq<Call>)
    requires AllInBounds(calls) && forall k | 0 <= k < |calls| :: Proper(layout, calls[k])
    ensures NeverStale(calls)
    decreases |calls|
  {
    if calls != [] {
      var front, call := calls[..|calls| - 1], calls[|calls| - 1];
      ProperNeverStale(layout, front);
      if forall s | s in Targets(call) :: LastId(front, s) == call.id {
        forall s | s in Targets(call) ensures !OtherContent(front, call, s) {
          ProperContent(layout, front, call, s);
        }
      }
    }
  }

  /** So with such a layout the cache is always right, whatever the device held at first. */
  lemma {:induction false} ProperAgree(layout: Layout, device: Device, calls: seq<Call>)
    requires AllInBounds(calls) && forall k | 0 <= k < |calls| :: Proper(layout, calls[k])
    ensures Agree(device, calls)
    decreases |calls|
  {
    if calls != [] {
      var front, call := calls[..|calls| - 1], calls[|calls| - 1];
      ProperAgree(layout, device, front);
      ProperNeverStale(layout, calls);
      FreshKeepsSame(device, front, call);
      assert front + [call] == calls;
    }
  }

  lemma ProperContent(layout: Layout, calls: seq<Call>, call: Call, s: Slot)
    requires AllInBounds(calls) && InBounds(call) && forall k | 0 <= k < |calls| :: Proper(layout, calls[k])
    requires Proper(layout, call) && s in Targets(call) && LastId(calls, s) == call.id
    ensures !OtherContent(calls, call, s)
  {
    TargetsInRange(call, s);
    LastIsInBoundsAndProper(layout, calls, s);
    if LastCall(calls, s).Some? {
      TargetsInRange(LastCall(calls, s).value, s);
    }
  }

  lemma {:induction false} LastIsInBoundsAndProper(layout: Layout, calls: seq<Call>, s: Slot)
    requires AllInBounds(calls) && forall k | 0 <= k < |calls| :: Proper(layout, calls[k])
    ensures LastCall(calls, s).Some? ==>
              var c := LastCall(calls, s).value; InBounds(c) && Proper(layout, c) && s in Targets(c)
  {
    if calls != [] && s !in Targets(calls[|calls| - 1]) {
      LastIsInBoundsAndProper(layout, calls[..|calls| - 1], s);
    }
  }

  // ----- failing inputs -----

  /** A buffer loaded at register 0, then at register 1, then at 0 again. The cache shows its ID in registers
      0 and 1, so the third call is skipped; but the device has the buffer's first part in register 1. */
  lemma MovedBufferIsMissed(device: Device)
    requires NoneInvalid(device)
    ensures var two := [Load(Vertex, 0, 2, 7), Load(Vertex, 1, 2, 7)];
            var again := Load(Vertex, 0, 2, 7);
            && Agree(device, two)
            && Skips(ActivatedAll(Start(device), two).ids, again)
            && !Same(device, two + [again])
  {
    var c1, c2 := Load(Vertex, 0, 2, 7), Load(Vertex, 1, 2, 7);
    var two := [c1, c2];
    assert two[..1] == [c1] && [c1][..0] == [];
    FirstLoadIsFresh(c1, FloatRegister(Vertex, 0));
    SecondLoadIsFresh();
    ThirdLoadIsStale();
    assert NeverStale([c1]) && NeverStale(two);
    AgreeIff(device, two);
    StaleIff(device, two, c1);
    SkipsIff(device, two, c1);
  }

  lemma FirstLoadIsFresh(call: Call, s: Slot)
    requires s in Targets(call) && call.id != Invalid(s)
    ensures !Stale([], call)
  {
    assert LastCall([], s) == None;
  }

  lemma SecondLoadIsFresh()
    ensures !Stale([Load(Vertex, 0, 2, 7)], Load(Vertex, 1, 2, 7))
  {
    var c1, c2, r2 := Load(Vertex, 0, 2, 7), Load(Vertex, 1, 2, 7), FloatRegister(Vertex, 2);
    assert r2 in Targets(c2) && r2 !in Targets(c1) && [c1][..0] == [];
    assert LastCall([c1], r2) == LastCall([], r2) == None;
  }

  lemma ThirdLoadIsStale()
    ensures Stale([Load(Vertex, 0, 2, 7), Load(Vertex, 1, 2, 7)], Load(Vertex, 0, 2, 7))
  {
    var c1, c2 := Load(Vertex, 0, 2, 7), Load(Vertex, 1, 2, 7);
    var two, r0, r1 := [c1, c2], FloatRegister(Vertex, 0), FloatRegister(Vertex, 1);
    assert two[..1] == [c1];
    assert r0 in Targets(c1) && r0 !in Targets(c2) && r1 in Targets(c1) && r1 in Targets(c2);
    assert LastCall(two, r0) == LastCall([c1], r0) == Some(c1) && LastCall(two, r1) == Some(c2);
    assert forall s | s in Targets(c1) :: s == r0 || s == r1;
    assert OtherContent(two, c1, r1);
  }

  /** Right after a reset, an ID of all ones is taken for one that is set. */
  lemma AllOnesIsMissed(device: Device, slot: Slot)
    requires InRange(slot) && !slot.FloatRegister? && NoneInvalid(device)
    ensures !Agree(device, [Set(slot, Invalid(slot))])
  {
    var calls := [Set(slot, Invalid(slot))];
    AgreeIff(device, calls);
    assert calls[..0] == [] && LastCall([], slot) == None;
    assert slot in Targets(calls[0]) && OtherContent([], calls[0], slot);
    assert Stale([], calls[0]);
  }
}
