/** Request validation and pool size classes (src/runtime.cpp, size_class_for and validate_request). */
module SizeClass {
  import opened Wrappers
  import opened Words
  import opened CheckedMath
  import opened Types

  const MAX_REQUEST: nat := 0x1_0000_0000_0000
  const MAX_ALIGNMENT: nat := 4096
  const U64: nat := 0x1_0000_0000_0000_0000

  /** What an accepted request commits to: its alignment and the bytes to charge. */
  datatype Plan = Plan(alignment: Size, bytes: Size)

  function EffectiveAlignment(cfg: Config, req: Request): Size
    requires req.domain in cfg.domains
  {
    if req.alignment != 0 then req.alignment
    else if cfg.domains[req.domain].preferredAlignment != 0 then cfg.domains[req.domain].preferredAlignment
    else 64
  }

  /** validate_request: the checks in the order of the source. */
  function Validate(cfg: Config, req: Request): Result<Plan> {
    if req.size == 0 || req.size > MAX_REQUEST then Err(InvalidArgument)
    else if req.domain !in cfg.domains then Err(UnsupportedDomain)
    else
      var a := EffectiveAlignment(cfg, req);
      if And(a, a - 1) != 0 || a > MAX_ALIGNMENT then Err(AlignmentError)
      else if req.domain == DEVICE && req.device < 0 then Err(InvalidDevice)
      else
        match AlignUp(req.size, a)
        case None => Err(Overflow)
        case Some(bytes) => Ok(Plan(a, bytes))
  }

  /** An accepted request charges the least multiple of a power-of-two alignment that holds it,
      and the overflow branch is never taken. */
  lemma AcceptedPlan(cfg: Config, req: Request)
    ensures Validate(cfg, req) != Err(Overflow)
    ensures Validate(cfg, req).Ok? ==>
            var p := Validate(cfg, req).value;
            && req.domain in cfg.domains
            && 0 < req.size <= MAX_REQUEST
            && 0 < p.alignment <= MAX_ALIGNMENT && IsPow2(p.alignment)
            && req.size <= p.bytes < req.size + p.alignment
            && p.bytes % p.alignment == 0
            && forall m: nat :: req.size <= m && m % p.alignment == 0 ==> p.bytes <= m
  {
    if req.domain in cfg.domains {
      var a := EffectiveAlignment(cfg, req);
      Pow2Test(a);
      AlignUpIsLeastMultiple(req.size, a);
    }
  }

  // ------------------------------------------------------------------ size classes

  function MinClass(p: PoolConfig): (r: nat)
    ensures r > 0
  {
    if p.minClassSize != 0 then p.minClassSize else 4096
  }

  function MaxClass(p: PoolConfig): nat {
    if p.maxClassSize != 0 then p.maxClassSize else 0x1000_0000
  }

  /** Doubling from cls until the class covers the bytes or reaches the maximum. */
  function ClassFrom(cls: nat, bytes: nat, max: nat): nat
    requires cls > 0
    decreases if cls < bytes then bytes - cls else 0
  {
    if cls < bytes && cls < max then ClassFrom(2 * cls, bytes, max) else cls
  }

  function ClassOf(p: PoolConfig, bytes: nat): nat {
    ClassFrom(MinClass(p), bytes, MaxClass(p))
  }

  /** size_class_for: the loop on 64-bit words. No shift overflows for any size that passes
      validation, so the loop terminates with the unbounded answer. */
  method SizeClassFor(p: PoolConfig, bytes: nat) returns (cls: nat)
    requires bytes <= MAX_REQUEST
    ensures cls == ClassOf(p, bytes)
  {
    cls := MinClass(p);
    var max := MaxClass(p);
    while cls < bytes && cls < max
      invariant cls > 0
      invariant ClassFrom(cls, bytes, max) == ClassOf(p, bytes)
      decreases bytes - cls
    {
      cls := (2 * cls) % U64;
    }
  }

  /** The class is a doubling of the minimum, covers the size unless capped, and wastes less than half. */
  lemma {:induction false} ClassFit(cls: nat, bytes: nat, max: nat)
    requires cls > 0
    ensures ClassFrom(cls, bytes, max) >= cls
    ensures ClassFrom(cls, bytes, max) >= bytes || ClassFrom(cls, bytes, max) >= max
    ensures bytes > cls ==> ClassFrom(cls, bytes, max) < 2 * bytes
    ensures exists k: nat :: ClassFrom(cls, bytes, max) == Pow2(k) * cls
    decreases if cls < bytes then bytes - cls else 0
  {
    if cls < bytes && cls < max {
      ClassFit(2 * cls, bytes, max);
      var k: nat :| ClassFrom(2 * cls, bytes, max) == Pow2(k) * (2 * cls);
      assert Pow2(k + 1) * cls == Pow2(k) * (2 * cls);
    } else {
      assert Pow2(0) * cls == cls;
    }
  }
}
