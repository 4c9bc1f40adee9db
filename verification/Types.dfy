/** Value types of include/unified_buffer: enumerations, configuration, requests, identifiers. */
module Types {
  import opened Wrappers
  import opened CheckedMath

  datatype Domain = HOST | PINNED_HOST | DEVICE | SHARED_HOST | MMAP_STORAGE

  datatype AccessMode = READ | WRITE | READ_WRITE

  datatype Ownership = RUNTIME | BORROWED | ADOPTED | SHARED

  datatype ZeroingPolicy = NEVER | ON_ALLOCATE | ON_RELEASE | ON_CROSS_OWNER_REUSE | ALWAYS

  datatype LeaseKind = READ_LEASE | WRITE_LEASE | EXCLUSIVE_LEASE

  datatype BufferState =
    | DECLARED | RESERVED | ALLOCATED | MAPPED | IN_USE | EXPORTING | EXPORTED | IMPORTING | IMPORTED
    | COPYING | MIGRATING | RELEASING | RELEASED | FAILED | QUARANTINED | INVALID

  type NamespaceId = nat

  const DEFAULT_NAMESPACE: NamespaceId := 1

  /** 128-bit identifier: hi is drawn once per runtime, lo counts. */
  datatype BufferId = BufferId(hi: nat, lo: nat)

  datatype PoolConfig = PoolConfig(
    enabled: bool, maxIdleBytes: nat, maxObjects: nat, minClassSize: nat, maxClassSize: nat)

  /** Zero (or an absent entry) means unlimited. */
  datatype NamespaceConfig = NamespaceConfig(
    quota: map<Domain, nat>, countQuota: nat, zeroing: ZeroingPolicy, allowImport: bool)

  /** An enabled backend: the capacity it reports and the alignment it prefers. */
  datatype Backend = Backend(total: nat, preferredAlignment: Size)

  datatype Config = Config(
    domains: map<Domain, Backend>, enablePool: bool, pool: PoolConfig, caps: map<Domain, nat>,
    idHi: nat, cudaDevice: int)

  datatype Request = Request(
    ns: NamespaceId, domain: Domain, device: int, size: Size, alignment: Size, access: AccessMode,
    poolable: bool, exportable: bool, zeroing: Option<ZeroingPolicy>)

  /** wrap_external: memory the caller already owns. */
  datatype ExternalMemory = ExternalMemory(
    isNull: bool, size: nat, alignment: nat, domain: Domain, device: int, ownership: Ownership)
}
