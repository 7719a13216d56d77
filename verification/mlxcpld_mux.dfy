/**
 * The channel cache of the Mellanox CPLD I2C multiplexer
 * (drivers/i2c/muxes/i2c-mux-mlxcpld.c): the driver remembers the last
 * value written to the CPLD select register and skips a write that would
 * repeat it. The outcome of each register write is a parameter; the
 * register itself is modelled next to the cache so that the cache can be
 * shown never to claim a channel the hardware does not have selected.
 */
module MlxcpldMux {
  import opened KernelTypes

  /** CPLD_MUX_MAX_NCHANS. */
  const CPLD_MUX_MAX_NCHANS: nat := 8

  /** struct mlxcpld_mux: the cached last register value, a u8. */
  datatype Mux = Mux(lastChan: nat)

  predicate ValidMux(m: Mux) {
    m.lastChan < 256
  }

  /** The outcome of a select or deselect: the new cache, the return value, the register writes made. */
  datatype Step = Step(mux: Mux, ret: int, writes: seq<nat>)

  /** The u8 register value selecting channel `chan`: chan + 1, truncated to 8 bits. */
  function RegVal(chan: nat): (r: nat)
    ensures r < 256
    ensures chan < 255 ==> r == chan + 1
  {
    (chan + 1) % 256
  }

  /**
   * mlxcpld_mux_select_chan: writes the channel's register value only when
   * it differs from the cached one; after a write the cache holds that value
   * on success and 0 on failure, and the write's result is returned.
   */
  function SelectChan(m: Mux, chan: nat, writeResult: int): (r: Step)
    requires ValidMux(m)
    ensures ValidMux(r.mux)
    ensures r.writes == [] <==> m.lastChan == RegVal(chan)
    ensures r.writes == [] ==> r.ret == 0 && r.mux == m
    ensures r.writes != [] ==> r.writes == [RegVal(chan)] && r.ret == writeResult
    ensures r.writes != [] ==> r.mux.lastChan == (if writeResult < 0 then 0 else RegVal(chan))
  {
    var regval := RegVal(chan);
    if m.lastChan != regval then
      Step(Mux(if writeResult < 0 then 0 else regval), writeResult, [regval])
    else
      Step(m, 0, [])
  }

  /** mlxcpld_mux_deselect: clears the cache and writes 0, whatever came before. */
  function Deselect(m: Mux, writeResult: int): (r: Step)
    ensures r.mux.lastChan == 0 && r.writes == [0] && r.ret == writeResult
  {
    var cleared := Mux(0);
    Step(cleared, writeResult, [cleared.lastChan])
  }

  /** Selecting the same channel twice, the first time successfully, writes the register once. */
  lemma RepeatedSelectWritesOnce(m: Mux, chan: nat, w1: int, w2: int)
    requires ValidMux(m) && w1 >= 0
    ensures var s1 := SelectChan(m, chan, w1);
            var s2 := SelectChan(s1.mux, chan, w2);
            |s1.writes + s2.writes| <= 1 && s2.writes == [] && s2.ret == 0
  {
  }

  /** A failed write is retried: the next select of a channel below 255 writes again. */
  lemma FailedSelectRetries(m: Mux, chan: nat, w1: int, w2: int)
    requires ValidMux(m) && w1 < 0 && chan < 255
    requires SelectChan(m, chan, w1).writes != []
    ensures SelectChan(SelectChan(m, chan, w1).mux, chan, w2).writes == [chan + 1]
  {
  }

  /** The CPLD select register: its value when known, None after a failed write. */
  datatype Bus = Bus(mux: Mux, reg: Option<nat>)

  /** The cache is truthful: a non-zero cached value is what the register holds. */
  predicate Coherent(b: Bus) {
    ValidMux(b.mux) && (b.mux.lastChan != 0 ==> b.reg == Some(b.mux.lastChan))
  }

  /** The register after a list of writes, each succeeding exactly when writeResult >= 0. */
  function ApplyWrites(reg: Option<nat>, writes: seq<nat>, writeResult: int): (r: Option<nat>)
    ensures writes == [] ==> r == reg
    ensures |writes| == 1 ==> r == (if writeResult < 0 then None else Some(writes[0]))
    decreases |writes|
  {
    if writes == [] then reg
    else ApplyWrites(if writeResult < 0 then None else Some(writes[0]), writes[1..], writeResult)
  }

  function SelectOnBus(b: Bus, chan: nat, writeResult: int): (r: (Bus, int))
    requires ValidMux(b.mux)
  {
    var s := SelectChan(b.mux, chan, writeResult);
    (Bus(s.mux, ApplyWrites(b.reg, s.writes, writeResult)), s.ret)
  }

  function DeselectOnBus(b: Bus, writeResult: int): (r: (Bus, int)) {
    var s := Deselect(b.mux, writeResult);
    (Bus(s.mux, ApplyWrites(b.reg, s.writes, writeResult)), s.ret)
  }

  /**
   * Select and deselect keep the cache truthful, and a select that reports
   * success leaves the register holding the channel's value (for channels
   * whose u8 value is not 0).
   */
  lemma SelectKeepsCoherent(b: Bus, chan: nat, writeResult: int)
    requires Coherent(b)
    ensures var (b1, ret) := SelectOnBus(b, chan, writeResult);
            && Coherent(b1)
            && (ret >= 0 && RegVal(chan) != 0 ==> b1.reg == Some(RegVal(chan)))
  {
  }

  lemma DeselectKeepsCoherent(b: Bus, writeResult: int)
    requires Coherent(b)
    ensures Coherent(DeselectOnBus(b, writeResult).0)
    ensures writeResult >= 0 ==> DeselectOnBus(b, writeResult).0.reg == Some(0)
  {
  }

  /** struct mlxcpld_mux_plat_data: the adapter ids and how many of them there are. */
  datatype PlatData = PlatData(adapIds: seq<int>, numAdaps: int)

  /** The channels probe creates adapters for: min(num_adaps, 8), none when num_adaps <= 0. */
  function ConfiguredChannels(p: PlatData): (n: nat)
    ensures n <= CPLD_MUX_MAX_NCHANS
  {
    if p.numAdaps <= 0 then 0
    else if p.numAdaps < CPLD_MUX_MAX_NCHANS then p.numAdaps
    else CPLD_MUX_MAX_NCHANS
  }

  /** i2c_mux_add_adapter's result for (channel, forced bus number); non-zero is an error. */
  type AddAdapter = (nat, int) -> int

  datatype LoopResult = AllAdded | AddFailed(chan: nat, err: int)

  /**
   * The adapter loop of mlxcpld_mux_probe from channel `num`: stops at
   * channel 8 or num_adaps, or at the first channel whose adapter cannot be
   * added.
   */
  function AddLoop(p: PlatData, add: AddAdapter, num: nat): (r: LoopResult)
    requires |p.adapIds| >= ConfiguredChannels(p)
    ensures r.AllAdded? <==> forall k :: num <= k < ConfiguredChannels(p) ==> add(k, p.adapIds[k]) == 0
    ensures r.AddFailed? ==> && num <= r.chan < ConfiguredChannels(p)
                             && r.err == add(r.chan, p.adapIds[r.chan]) && r.err != 0
                             && forall k :: num <= k < r.chan ==> add(k, p.adapIds[k]) == 0
    decreases CPLD_MUX_MAX_NCHANS - num
  {
    if num >= CPLD_MUX_MAX_NCHANS || num >= p.numAdaps then AllAdded
    else
      var err := add(num, p.adapIds[num]);
      if err != 0 then AddFailed(num, err)
      else AddLoop(p, add, num + 1)
  }

  datatype ProbeError = ProbeErrno(e: Errno) | AdapterError(code: int)

  /** A probed mux with the channels that have adapters, or the error probe returned. */
  datatype ProbeResult = Probed(mux: Mux, adapters: seq<nat>) | ProbeFailed(err: ProbeError)

  /**
   * mlxcpld_mux_probe: EINVAL without platform data, ENODEV when the bus
   * cannot write byte data, ENOMEM when the mux core cannot be allocated;
   * otherwise an adapter per configured channel in order, with the cache
   * cleared to force the first selection. On the first adapter failure all
   * adapters are removed and that error is returned.
   */
  function Probe(pdata: Option<PlatData>, canWriteByteData: bool, allocOk: bool, add: AddAdapter): (r: ProbeResult)
    requires pdata.Some? ==> |pdata.value.adapIds| >= ConfiguredChannels(pdata.value)
    ensures pdata.None? ==> r == ProbeFailed(ProbeErrno(EINVAL))
    ensures pdata.Some? && !canWriteByteData ==> r == ProbeFailed(ProbeErrno(ENODEV))
    ensures pdata.Some? && canWriteByteData && !allocOk ==> r == ProbeFailed(ProbeErrno(ENOMEM))
    ensures r.Probed? ==> && pdata.Some? && r.mux.lastChan == 0
                          && |r.adapters| == ConfiguredChannels(pdata.value)
                          && (forall k :: 0 <= k < |r.adapters| ==> r.adapters[k] == k)
    ensures r.ProbeFailed? && r.err.AdapterError? ==>
              && pdata.Some?
              && exists c :: 0 <= c < ConfiguredChannels(pdata.value) && r.err.code == add(c, pdata.value.adapIds[c]) != 0
  {
    if pdata.None? then ProbeFailed(ProbeErrno(EINVAL))
    else if !canWriteByteData then ProbeFailed(ProbeErrno(ENODEV))
    else if !allocOk then ProbeFailed(ProbeErrno(ENOMEM))
    else
      var p := pdata.value;
      match AddLoop(p, add, 0)
      case AllAdded => Probed(Mux(0), seq(ConfiguredChannels(p), k => k))
      case AddFailed(c, err) => ProbeFailed(AdapterError(err))
  }

  /** Probe succeeds exactly when the prerequisites hold and every configured adapter is added. */
  lemma ProbeSucceedsIff(pdata: Option<PlatData>, canWriteByteData: bool, allocOk: bool, add: AddAdapter)
    requires pdata.Some? ==> |pdata.value.adapIds| >= ConfiguredChannels(pdata.value)
    ensures Probe(pdata, canWriteByteData, allocOk, add).Probed? <==>
              && pdata.Some? && canWriteByteData && allocOk
              && forall k :: 0 <= k < ConfiguredChannels(pdata.value) ==> add(k, pdata.value.adapIds[k]) == 0
  {
    if pdata.Some? && canWriteByteData && allocOk {
      var r := AddLoop(pdata.value, add, 0);
    }
  }

  /** After probe, the first select of any channel below 8 writes the register. */
  lemma FirstSelectAfterProbeWrites(pdata: Option<PlatData>, canWriteByteData: bool, allocOk: bool,
                                    add: AddAdapter, chan: nat, w: int)
    requires pdata.Some? ==> |pdata.value.adapIds| >= ConfiguredChannels(pdata.value)
    requires chan < CPLD_MUX_MAX_NCHANS
    requires Probe(pdata, canWriteByteData, allocOk, add).Probed?
    ensures SelectChan(Probe(pdata, canWriteByteData, allocOk, add).mux, chan, w).writes == [chan + 1]
  {
  }
}
