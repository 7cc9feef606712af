/**
 * The PiggyBank page's view of the vault: the lock-duration selector, the
 * record read from `getPiggyBank` and the panels and buttons chosen from it,
 * and the contract writes that the buttons issue.
 */
module VaultPage {
  import opened Options

  /** Seconds for a lock-duration selector value; unknown values fall back to a day. */
  function LockDurationInSeconds(duration: string): (r: nat)
    ensures 0 < r <= 31536000
    ensures r in {3600, 86400, 604800, 2592000, 31536000}
    ensures duration !in {"1hour", "1week", "1month", "1year"} ==> r == 86400
  {
    match duration
    case "1hour" => 3600
    case "1day" => 86400
    case "1week" => 604800
    case "1month" => 2592000
    case "1year" => 31536000
    case _ => 86400
  }

  /** The five selector options and their durations, shortest first. */
  lemma LockDurationTable()
    ensures LockDurationInSeconds("1hour") == 3600
    ensures LockDurationInSeconds("1day") == 86400
    ensures LockDurationInSeconds("1week") == 604800
    ensures LockDurationInSeconds("1month") == 2592000
    ensures LockDurationInSeconds("1year") == 31536000
    ensures LockDurationInSeconds("1hour") < LockDurationInSeconds("1day")
            < LockDurationInSeconds("1week") < LockDurationInSeconds("1month")
            < LockDurationInSeconds("1year")
  {
  }

  /** The tuple `getPiggyBank` returns: amount in wei, unlock time, and two flags. */
  datatype VaultRecord = VaultRecord(amount: nat, unlockTime: nat, isUnlocked: bool, vaultExists: bool)

  /** The record the page works with: the read result, or all zeros before it arrives. */
  function Destructure(data: Option<VaultRecord>): (v: VaultRecord)
    ensures data.None? ==> v.amount == 0 && v.unlockTime == 0 && !v.isUnlocked && !v.vaultExists
    ensures data.Some? ==> v == data.value
  {
    data.GetOr(VaultRecord(0, 0, false, false))
  }

  /** Which parts of the page are rendered. */
  datatype Layout = Layout(
    statusPanel: bool,
    unlockLine: bool,
    withdrawButton: bool,
    emergencyButton: bool,
    createForm: bool,
    addFundsPanel: bool)

  /**
   * The panels chosen by `exists` (here `vaultExists`), the unlock line by `unlockTime > 0` inside
   * the status panel, and the withdraw button by `isUnlocked`.
   */
  function PageLayout(v: VaultRecord): (l: Layout)
    ensures l.statusPanel == l.addFundsPanel == !l.createForm
    ensures l.createForm <==> !v.vaultExists
    ensures l.unlockLine <==> v.vaultExists && v.unlockTime > 0
    ensures l.statusPanel ==> (l.withdrawButton <==> !l.emergencyButton)
    ensures !l.statusPanel ==> !l.withdrawButton && !l.emergencyButton
    ensures l.withdrawButton <==> v.vaultExists && v.isUnlocked
  {
    Layout(
      statusPanel := v.vaultExists,
      unlockLine := v.vaultExists && v.unlockTime > 0,
      withdrawButton := v.vaultExists && v.isUnlocked,
      emergencyButton := v.vaultExists && !v.isUnlocked,
      createForm := !v.vaultExists,
      addFundsPanel := v.vaultExists)
  }

  /** Before any contract data arrives only the create form is shown. */
  lemma NoDataShowsCreateForm()
    ensures PageLayout(Destructure(None)) == Layout(false, false, false, false, true, false)
  {
  }

  /** A contract call the page submits. */
  datatype Write =
    | CreatePiggyBank(lockSeconds: nat, value: nat)
    | AddFunds(value: nat)
    | Withdraw
    | EmergencyWithdraw

  /**
   * Create button: `amountOk` is the outcome of the page's `parseFloat` check
   * and `wei` what `parseEther` makes of the amount, `None` when it throws. A
   * failed check alerts and submits nothing; a conversion that throws inside
   * the `try` is caught and logged, and nothing is submitted either.
   */
  function CreateClicked(amountOk: bool, wei: Option<nat>, lockDuration: string): (w: Option<Write>)
    ensures w.Some? <==> amountOk && wei.Some?
    ensures w.Some? ==> w.value == CreatePiggyBank(LockDurationInSeconds(lockDuration), wei.value)
    ensures w.Some? ==> 0 < w.value.lockSeconds <= 31536000
  {
    if !amountOk then None
    else match wei
      case None => None
      case Some(v) => Some(CreatePiggyBank(LockDurationInSeconds(lockDuration), v))
  }

  /** Add-funds button: same amount check and conversion, no duration. */
  function AddFundsClicked(amountOk: bool, wei: Option<nat>): (w: Option<Write>)
    ensures w.Some? <==> amountOk && wei.Some?
    ensures w.Some? ==> w.value == AddFunds(wei.value)
  {
    if !amountOk then None
    else match wei
      case None => None
      case Some(v) => Some(AddFunds(v))
  }

  /** Emergency button: the write goes out only when the penalty is confirmed. */
  function EmergencyClicked(confirmed: bool): (w: Option<Write>)
    ensures w.Some? <==> confirmed
    ensures w.Some? ==> w.value == EmergencyWithdraw
  {
    if confirmed then Some(EmergencyWithdraw) else None
  }

  /**
   * Pressing the one withdrawal button the status panel offers: a plain
   * withdrawal exactly when unlocked, otherwise an emergency withdrawal
   * exactly when confirmed, and never a write of any other kind.
   */
  function WithdrawalButtonClicked(v: VaultRecord, confirmed: bool): (w: Option<Write>)
    requires PageLayout(v).statusPanel
    ensures w == Some(Withdraw) <==> v.isUnlocked
    ensures w == Some(EmergencyWithdraw) <==> !v.isUnlocked && confirmed
    ensures w.None? <==> !v.isUnlocked && !confirmed
  {
    if PageLayout(v).withdrawButton then Some(Withdraw) else EmergencyClicked(confirmed)
  }
}
