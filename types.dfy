/**
 * The enums and records the dashboard reads from the vesting contract.
 * Amounts, timestamps and durations are ABI `uint256` values; the two enum
 * fields travel as ABI `uint8` codes.
 */
module Types {
  import opened Options

  const UINT256_LIMIT: nat := 0x1_0000_0000_0000_0000_0000_0000_0000_0000_0000_0000_0000_0000_0000_0000_0000_0000
  const ADDRESS_LIMIT: nat := 0x1_0000_0000_0000_0000_0000_0000_0000_0000_0000

  type Uint256 = n: nat | n < UINT256_LIMIT
  type Uint8 = n: nat | n < 256
  /** A 20-byte account address. */
  type Address = n: nat | n < ADDRESS_LIMIT
  /** A 32-byte schedule identifier. */
  type ScheduleId = n: nat | n < UINT256_LIMIT

  datatype AllocationCategory = Mining | Ecosystem | Team | Cornerstone

  datatype VestingType = Linear | Milestone | CliffLinear

  /** The numeric value of each category in the TypeScript enum and the contract. */
  function CategoryCode(c: AllocationCategory): (code: Uint8)
    ensures code < 4
  {
    match c
    case Mining => 0
    case Ecosystem => 1
    case Team => 2
    case Cornerstone => 3
  }

  /** The category a `uint8` code stands for; only 0..3 name one. */
  function CategoryOfCode(code: Uint8): (c: Option<AllocationCategory>)
    ensures c.Some? <==> code < 4
    ensures c.Some? ==> CategoryCode(c.value) == code
  {
    if code == 0 then Some(Mining)
    else if code == 1 then Some(Ecosystem)
    else if code == 2 then Some(Team)
    else if code == 3 then Some(Cornerstone)
    else None
  }

  lemma CategoryCodeRoundTrip(c: AllocationCategory)
    ensures CategoryOfCode(CategoryCode(c)) == Some(c)
  {
  }

  function VestingTypeCode(t: VestingType): (code: Uint8)
    ensures code < 3
  {
    match t
    case Linear => 0
    case Milestone => 1
    case CliffLinear => 2
  }

  /** The vesting type a `uint8` code stands for; only 0..2 name one. */
  function VestingTypeOfCode(code: Uint8): (t: Option<VestingType>)
    ensures t.Some? <==> code < 3
    ensures t.Some? ==> VestingTypeCode(t.value) == code
  {
    if code == 0 then Some(Linear)
    else if code == 1 then Some(Milestone)
    else if code == 2 then Some(CliffLinear)
    else None
  }

  lemma VestingTypeCodeRoundTrip(t: VestingType)
    ensures VestingTypeOfCode(VestingTypeCode(t)) == Some(t)
  {
  }

  const AllocationCategoryMapping: map<AllocationCategory, string> :=
    map[Mining := "MINING", Ecosystem := "ECOSYSTEM", Team := "TEAM", Cornerstone := "CORNERSTONE"]

  const VestingTypeMapping: map<VestingType, string> :=
    map[Linear := "LINEAR", Milestone := "MILESTONE", CliffLinear := "CLIFF_LINEAR"]

  /** Every category has a name, and no two categories share one. */
  lemma AllocationCategoryMappingTotalAndInjective()
    ensures forall c: AllocationCategory :: c in AllocationCategoryMapping
    ensures forall c1, c2 | c1 in AllocationCategoryMapping && c2 in AllocationCategoryMapping ::
      AllocationCategoryMapping[c1] == AllocationCategoryMapping[c2] ==> c1 == c2
  {
    forall c: AllocationCategory ensures c in AllocationCategoryMapping {
      match c
      case Mining =>
      case Ecosystem =>
      case Team =>
      case Cornerstone =>
    }
  }

  /** Every vesting type has a name, and no two types share one. */
  lemma VestingTypeMappingTotalAndInjective()
    ensures forall t: VestingType :: t in VestingTypeMapping
    ensures forall t1, t2 | t1 in VestingTypeMapping && t2 in VestingTypeMapping ::
      VestingTypeMapping[t1] == VestingTypeMapping[t2] ==> t1 == t2
  {
    forall t: VestingType ensures t in VestingTypeMapping {
      match t
      case Linear =>
      case Milestone =>
      case CliffLinear =>
    }
  }

  /** A schedule as the contract stores it, with its enum codes decoded. */
  datatype VestingSchedule = VestingSchedule(
    initialized: bool,
    beneficiary: Address,
    cliff: Uint256,
    start: Uint256,
    duration: Uint256,
    slicePeriodSeconds: Uint256,
    revocable: bool,
    amountTotal: Uint256,
    released: Uint256,
    revoked: bool,
    category: AllocationCategory,
    vestingType: VestingType)

  datatype VestingScheduleWithId = VestingScheduleWithId(id: ScheduleId, schedule: VestingSchedule)

  /** The contract's per-schedule progress read. */
  datatype VestingProgress = VestingProgress(
    totalAmount: Uint256,
    releasedAmount: Uint256,
    releasableAmount: Uint256,
    lockedAmount: Uint256)
}
