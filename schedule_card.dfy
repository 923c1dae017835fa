/**
 * The schedule card: what it derives from one schedule and its progress read
 * (status badge, release progress, elapsed-time progress, countdown), when its
 * release controls are enabled, how it validates a release request, and the
 * state the card keeps between renders.
 */
module ScheduleCard {
  import opened Options
  import opened Types
  import opened JsString
  import opened Progress
  import opened Utils

  datatype Status = Revoked | Completed | Active

  /** The status badge: revoked first, then completed, otherwise active. */
  function StatusOf(revoked: bool, progress: Option<VestingProgress>): (s: Status)
    ensures s == Revoked <==> revoked
    ensures s == Completed <==>
      && !revoked && progress.Some?
      && progress.value.totalAmount > 0
      && progress.value.releasedAmount == progress.value.totalAmount
  {
    if revoked then Revoked
    else if progress.Some? && progress.value.totalAmount > 0
            && progress.value.releasedAmount == progress.value.totalAmount then Completed
    else Active
  }

  /** Released as a share of total, in basis points; 0 without data or with a zero total. */
  function ReleaseBasisPoints(progress: Option<VestingProgress>): (bp: nat)
    ensures progress.None? || progress.value.totalAmount == 0 ==> bp == 0
    ensures progress.Some? && progress.value.totalAmount > 0 ==>
      var p := progress.value;
      bp * p.totalAmount <= p.releasedAmount * FULL_BASIS_POINTS < (bp + 1) * p.totalAmount
  {
    if progress.None? || progress.value.totalAmount == 0 then 0
    else BasisPoints(progress.value.releasedAmount, progress.value.totalAmount)
  }

  /** Release progress stays within 100% while released does not exceed total. */
  lemma ReleaseProgressAtMostFull(progress: Option<VestingProgress>)
    requires progress.Some? ==> progress.value.releasedAmount <= progress.value.totalAmount
    ensures ReleaseBasisPoints(progress) <= FULL_BASIS_POINTS
  {
    if progress.Some? && progress.value.totalAmount > 0 {
      BasisPointsAtMostFull(progress.value.releasedAmount, progress.value.totalAmount);
    }
  }

  /** A non-revoked schedule shows "completed" exactly when its release progress shows 100%. */
  lemma CompletedIffFullyReleased(revoked: bool, progress: Option<VestingProgress>)
    requires progress.Some? ==> progress.value.releasedAmount <= progress.value.totalAmount
    ensures !revoked ==> (StatusOf(revoked, progress) == Completed <==> ReleaseBasisPoints(progress) == FULL_BASIS_POINTS)
  {
    if progress.Some? && progress.value.totalAmount > 0 {
      BasisPointsFullIff(progress.value.releasedAmount, progress.value.totalAmount);
    }
  }

  /**
   * Elapsed time as a share of the duration, in basis points: 100% for a zero
   * duration, 0 up to the start, 100% from the end on, and the rounded-down
   * share in between.
   */
  function TimeProgressBasisPoints(start: nat, duration: nat, now: int): (bp: nat)
    ensures bp <= FULL_BASIS_POINTS
    ensures duration == 0 ==> bp == FULL_BASIS_POINTS
    ensures duration > 0 && now <= start ==> bp == 0
    ensures duration > 0 && now >= start + duration ==> bp == FULL_BASIS_POINTS
    ensures duration > 0 && start < now < start + duration ==>
      && bp < FULL_BASIS_POINTS
      && bp * duration <= (now - start) * FULL_BASIS_POINTS < (bp + 1) * duration
  {
    if duration == 0 then FULL_BASIS_POINTS
    else
      var elapsed := now - start;
      if elapsed <= 0 then 0
      else if elapsed >= duration then FULL_BASIS_POINTS
      else
        BasisPointsFullIff(elapsed, duration);
        BasisPoints(elapsed, duration)
  }

  /** Time progress never goes backwards as the clock advances. */
  lemma {:induction false} TimeProgressMonotonic(start: nat, duration: nat, now1: int, now2: int)
    requires now1 <= now2
    ensures TimeProgressBasisPoints(start, duration, now1) <= TimeProgressBasisPoints(start, duration, now2)
  {
    if duration > 0 && start < now1 && now2 < start + duration {
      BasisPointsMonotonic(now1 - start, now2 - start, duration);
    }
  }

  /** Seconds left until the schedule ends, never negative. */
  function RemainingSeconds(start: nat, duration: nat, now: int): (r: nat)
    ensures r == 0 <==> now >= start + duration
    ensures r > 0 ==> now + r == start + duration
  {
    var end := start + duration;
    if end > now then end - now else 0
  }

  /** The countdown falls by exactly the time that passes until it reaches 0, and then stays there. */
  lemma CountdownFollowsClock(start: nat, duration: nat, now1: int, now2: int)
    requires now1 <= now2
    ensures RemainingSeconds(start, duration, now2) <= RemainingSeconds(start, duration, now1)
    ensures now2 <= start + duration ==>
      RemainingSeconds(start, duration, now1) - RemainingSeconds(start, duration, now2) == now2 - now1
  {
  }

  /** For a positive duration the countdown reaches 0 exactly when time progress reaches 100%. */
  lemma CountdownEndsWithTimeProgress(start: nat, duration: nat, now: int)
    requires duration > 0
    ensures RemainingSeconds(start, duration, now) == 0 <==>
            TimeProgressBasisPoints(start, duration, now) == FULL_BASIS_POINTS
  {
  }

  /** The releasable amount the card works with: 0 until progress has been read. */
  function ReleasableOrZero(progress: Option<VestingProgress>): (r: nat)
    ensures progress.Some? ==> r == progress.value.releasableAmount
    ensures r == 0 <==> progress.None? || progress.value.releasableAmount == 0
  {
    if progress.Some? then progress.value.releasableAmount else 0
  }

  /** Whether the input, the Max button and the release button are enabled. */
  predicate CanRelease(progress: Option<VestingProgress>, isPending: bool, isConfirming: bool)
    ensures CanRelease(progress, isPending, isConfirming) <==>
      progress.Some? && progress.value.releasableAmount > 0 && !isPending && !isConfirming
  {
    ReleasableOrZero(progress) > 0 && !isPending && !isConfirming
  }

  datatype ReleaseOutcome = NoData | InvalidAmount | ExceedsReleasable | Submit(amount: nat)

  /**
   * The amount `handleRelease` asks for: everything releasable when the input
   * is blank after trimming, otherwise `parsed`, the value `parseEther` gives
   * the input.
   */
  function AmountToRelease(p: VestingProgress, input: string, parsed: int): (amount: int)
    ensures IsBlank(input) ==> amount == p.releasableAmount
    ensures !IsBlank(input) ==> amount == parsed
  {
    TrimEmptyIffBlank(input);
    if Trim(input) == [] then p.releasableAmount else parsed
  }

  /**
   * `handleRelease`: nothing without progress data; an amount that is not
   * positive is invalid, checked first; one above the releasable amount is
   * refused; anything else is submitted.
   */
  function HandleRelease(progress: Option<VestingProgress>, input: string, parsed: int): (o: ReleaseOutcome)
    ensures o == NoData <==> progress.None?
    ensures o.Submit? ==> progress.Some? && 0 < o.amount <= progress.value.releasableAmount
    ensures progress.Some? ==>
      var amount := AmountToRelease(progress.value, input, parsed);
      && (amount <= 0 ==> o == InvalidAmount)
      && (0 < amount <= progress.value.releasableAmount ==> o == Submit(amount))
      && (0 < amount && progress.value.releasableAmount < amount ==> o == ExceedsReleasable)
  {
    match progress
    case None => NoData
    case Some(p) =>
      var amount := AmountToRelease(p, input, parsed);
      if amount <= 0 then InvalidAmount
      else if amount > p.releasableAmount then ExceedsReleasable
      else Submit(amount)
  }

  /** A blank or whitespace-only input asks for exactly the releasable amount, which is invalid when it is 0. */
  lemma BlankInputReleasesAll(p: VestingProgress, input: string, parsed: int)
    requires IsBlank(input)
    ensures HandleRelease(Some(p), input, parsed)
         == if p.releasableAmount > 0 then Submit(p.releasableAmount) else InvalidAmount
  {
    TrimEmptyIffBlank(input);
  }

  /**
   * The Max button fills in the releasable amount with all 18 decimals; that
   * text is not blank and parses back to exactly the releasable amount, so
   * releasing it submits everything releasable.
   */
  lemma MaxButtonReleasesAll(p: VestingProgress)
    ensures var input := FormatTokenAmount(Some(p.releasableAmount as nat), ETHER_DECIMALS);
            && ParseEther(input) == Some(p.releasableAmount as nat)
            && HandleRelease(Some(p), input, p.releasableAmount)
               == if p.releasableAmount > 0 then Submit(p.releasableAmount) else InvalidAmount
  {
    var input := FormatTokenAmount(Some(p.releasableAmount as nat), ETHER_DECIMALS);
    MaxRenderingRoundTrip(p.releasableAmount);
    TrimEmptyIffBlank(input);
    assert !IsJsWhitespace(input[|input| - ETHER_DECIMALS - 1]);
  }

  /** With the controls enabled, releasing with an empty input submits the whole releasable amount. */
  lemma EnabledReleaseOfBlankSubmits(progress: Option<VestingProgress>, isPending: bool, isConfirming: bool)
    requires CanRelease(progress, isPending, isConfirming)
    ensures HandleRelease(progress, "", 0) == Submit(progress.value.releasableAmount)
  {
    BlankInputReleasesAll(progress.value, "", 0);
  }

  /** The state one card keeps: the amount input, the clock, the latest progress read and the write flags. */
  class CardState {
    const schedule: VestingSchedule
    var progress: Option<VestingProgress>
    var releaseAmount: string
    var now: int
    var isPending: bool
    var isConfirming: bool

    /** A release is awaiting the wallet or awaiting its receipt, never both. */
    ghost predicate Valid()
      reads this
    {
      !(isPending && isConfirming)
    }

    constructor (schedule: VestingSchedule, now: int)
      ensures Valid()
      ensures this.schedule == schedule && this.now == now
      ensures progress == None && releaseAmount == "" && !isPending && !isConfirming
    {
      this.schedule := schedule;
      this.now := now;
      progress := None;
      releaseAmount := "";
      isPending := false;
      isConfirming := false;
    }

    /** The elapsed-time bar of this card's schedule, in basis points. */
    function TimeProgress(): nat
      reads this
    {
      TimeProgressBasisPoints(schedule.start, schedule.duration, now)
    }

    /** The countdown of this card's schedule, in seconds. */
    function Countdown(): nat
      reads this
    {
      RemainingSeconds(schedule.start, schedule.duration, now)
    }

    /**
     * The once-a-second clock update. As time moves on, the elapsed-time bar
     * never falls and the countdown never rises.
     */
    method Tick(t: int)
      modifies this`now
      ensures now == t
      ensures old(now) <= t ==> TimeProgress() >= old(TimeProgress()) && Countdown() <= old(Countdown())
    {
      var before := now;
      now := t;
      if before <= t {
        TimeProgressMonotonic(schedule.start, schedule.duration, before, t);
        CountdownFollowsClock(schedule.start, schedule.duration, before, t);
      }
    }

    /** A poll of the schedule's progress came back; None when the read failed or is still loading. */
    method ProgressRead(result: Option<VestingProgress>)
      modifies this`progress
      ensures progress == result
    {
      progress := result;
    }

    /**
     * The user edited the amount input. Like the buttons, the input is disabled
     * while `CanRelease` is false, and then it keeps its text.
     */
    method EditAmount(text: string)
      modifies this`releaseAmount
      ensures releaseAmount == if CanRelease(progress, isPending, isConfirming) then text else old(releaseAmount)
    {
      if CanRelease(progress, isPending, isConfirming) {
        releaseAmount := text;
      }
    }

    /** The Max button: when enabled, fills in the releasable amount with all 18 decimals. */
    method PressMax()
      modifies this`releaseAmount
      ensures releaseAmount ==
        if CanRelease(progress, isPending, isConfirming)
        then FormatTokenAmount(Some(ReleasableOrZero(progress)), ETHER_DECIMALS)
        else old(releaseAmount)
    {
      if CanRelease(progress, isPending, isConfirming) {
        releaseAmount := FormatTokenAmount(Some(ReleasableOrZero(progress)), ETHER_DECIMALS);
      }
    }

    /**
     * The release button: when enabled, runs `handleRelease` on the input
     * (`parsed` is what `parseEther` makes of it); a submission starts a
     * wallet request.
     */
    method PressRelease(parsed: int) returns (outcome: Option<ReleaseOutcome>)
      requires Valid()
      modifies this`isPending
      ensures Valid()
      ensures outcome == if old(CanRelease(progress, isPending, isConfirming))
                         then Some(HandleRelease(progress, releaseAmount, parsed)) else None
      ensures isPending == (old(isPending) || (outcome.Some? && outcome.value.Submit?))
    {
      if CanRelease(progress, isPending, isConfirming) {
        var o := HandleRelease(progress, releaseAmount, parsed);
        outcome := Some(o);
        if o.Submit? {
          isPending := true;
        }
      } else {
        outcome := None;
      }
    }

    /** The wallet answered a pending request: the transaction was sent, or it was rejected or failed. */
    method WalletResponded(sent: bool)
      requires Valid()
      modifies this`isPending, this`isConfirming
      ensures Valid()
      ensures !isPending
      ensures isConfirming == (old(isConfirming) || (old(isPending) && sent))
    {
      if isPending {
        isPending := false;
        isConfirming := sent;
      }
    }

    /**
     * The transaction's receipt arrived, with the success callback that the
     * card registers: the card stops confirming and clears the amount input.
     */
    method ReceiptConfirmed()
      requires Valid()
      modifies this`isConfirming, this`releaseAmount
      ensures Valid()
      ensures !isConfirming
      ensures releaseAmount == if old(isConfirming) then "" else old(releaseAmount)
    {
      if isConfirming {
        isConfirming := false;
        releaseAmount := "";
      }
    }

    /**
     * The receipt arriving when nothing reacts to it, which is what the receipt
     * hook does with a success callback passed the way the card passes it: the
     * card stops confirming and the amount input keeps its text.
     */
    method ReceiptArrivedAsWritten()
      requires Valid()
      modifies this`isConfirming
      ensures Valid() && !isConfirming
      ensures releaseAmount == old(releaseAmount)
    {
      isConfirming := false;
    }
  }

  /** Pressing Max and then release, with the controls enabled, submits the whole releasable amount. */
  method MaxThenRelease(card: CardState) returns (outcome: Option<ReleaseOutcome>)
    requires card.Valid() && CanRelease(card.progress, card.isPending, card.isConfirming)
    modifies card`releaseAmount, card`isPending
    ensures card.Valid() && card.isPending && !card.isConfirming
    ensures card.releaseAmount == FormatTokenAmount(Some(ReleasableOrZero(card.progress)), ETHER_DECIMALS)
    ensures outcome == Some(Submit(old(card.progress).value.releasableAmount))
  {
    var p := card.progress.value;
    var input := FormatTokenAmount(Some(p.releasableAmount as nat), ETHER_DECIMALS);
    assert ReleasableOrZero(card.progress) == p.releasableAmount;
    card.PressMax();
    assert card.releaseAmount == input;
    MaxButtonReleasesAll(p);
    var parsed := ParseEther(card.releaseAmount).value;
    assert parsed == p.releasableAmount;
    outcome := card.PressRelease(parsed);
  }

  /**
   * A whole release with the Max text: Max, release, the wallet sends the
   * transaction, the receipt arrives and its success callback runs. The card
   * ends idle with an empty input.
   */
  method MaxReleaseConfirmed(card: CardState) returns (outcome: Option<ReleaseOutcome>)
    requires card.Valid() && CanRelease(card.progress, card.isPending, card.isConfirming)
    modifies card`releaseAmount, card`isPending, card`isConfirming
    ensures card.Valid() && !card.isPending && !card.isConfirming
    ensures outcome == Some(Submit(old(card.progress).value.releasableAmount))
    ensures card.releaseAmount == ""
  {
    outcome := MaxThenRelease(card);
    card.WalletResponded(true);
    card.ReceiptConfirmed();
  }

  /**
   * The same release cycle with the receipt handled as written: once the
   * transaction is confirmed the input still holds the amount just released.
   */
  method MaxReleaseConfirmedAsWritten(card: CardState) returns (outcome: Option<ReleaseOutcome>)
    requires card.Valid() && CanRelease(card.progress, card.isPending, card.isConfirming)
    modifies card`releaseAmount, card`isPending, card`isConfirming
    ensures card.Valid() && !card.isPending && !card.isConfirming
    ensures outcome == Some(Submit(old(card.progress).value.releasableAmount))
    ensures card.releaseAmount == FormatTokenAmount(Some(old(card.progress).value.releasableAmount), ETHER_DECIMALS)
    ensures card.releaseAmount != ""
  {
    outcome := MaxThenRelease(card);
    card.WalletResponded(true);
    card.ReceiptArrivedAsWritten();
  }
}
