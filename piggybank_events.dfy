/**
 * The transaction history under the PiggyBank page: three event logs
 * (Deposit, Withdrawal, PiggyBankSmashed) rendered as one list, deposits
 * first, then withdrawals, then emergency withdrawals, each log in the order
 * it was fetched.
 */
module PiggyBankEvents {
  import opened Options
  import Decimal

  /** Block metadata fetched with an event; either part may be missing. */
  datatype BlockData = BlockData(timestamp: Option<nat>, blockNumber: Option<nat>)

  /** A fetched log entry: its decoded arguments and, if fetched, its block data. */
  datatype LogEvent<A> = LogEvent(args: A, blockData: Option<BlockData>)

  datatype DepositArgs = DepositArgs(amount: nat, unlockTime: nat)
  datatype WithdrawalArgs = WithdrawalArgs(amount: nat)
  datatype SmashedArgs = SmashedArgs(amount: nat)

  /** The kind-specific lines of an entry; amounts in wei. */
  datatype Details =
    | DepositDetails(amount: nat, unlockTime: nat)
    | WithdrawalDetails(amount: nat)
    | EmergencyDetails(amount: nat, received: nat)

  /** The time line of an entry: a block timestamp, or "Unknown time". */
  datatype TimeLabel = UnknownTime | MinedAt(timestamp: nat)

  /** One rendered entry: its React key, its kind lines, its time line and its block text. */
  datatype Entry = Entry(key: string, details: Details, time: TimeLabel, block: string)

  /** What the component shows: the empty-history message, or the entries. */
  datatype History = NoTransactions | Transactions(entries: seq<Entry>)

  /** `(amount * 9n) / 10n`: the amount left after the 10% penalty, rounded down. */
  function Received(amount: nat): (r: nat)
    ensures r <= amount
    ensures r * 10 <= amount * 9 < r * 10 + 10
    ensures (amount - r) * 10 >= amount
  {
    (amount * 9) / 10
  }

  lemma ReceivedExamples()
    ensures Received(100) == 90 && Received(101) == 90 && Received(0) == 0
  {
  }

  /** The block timestamp is missing or zero. */
  predicate MissingTime(blockData: Option<BlockData>) {
    blockData.None? || blockData.value.timestamp.None? || blockData.value.timestamp.value == 0
  }

  /** The block number is missing. */
  predicate MissingBlock(blockData: Option<BlockData>) {
    blockData.None? || blockData.value.blockNumber.None?
  }

  /** The time line: a present, non-zero timestamp, otherwise "Unknown time". */
  function TimeOf(blockData: Option<BlockData>): (t: TimeLabel)
    ensures t.MinedAt? <==> blockData.Some? && blockData.value.timestamp.Some?
                            && blockData.value.timestamp.value != 0
    ensures t.MinedAt? ==> t.timestamp == blockData.value.timestamp.value
  {
    match blockData
    case Some(BlockData(Some(ts), _)) => if ts != 0 then MinedAt(ts) else UnknownTime
    case _ => UnknownTime
  }

  /**
   * The block text: the number's decimal digits, which are never empty, so the
   * `|| "Unknown"` fallback applies only to a missing number.
   */
  function BlockOf(blockData: Option<BlockData>): (s: string)
    ensures s != ""
    ensures s == "Unknown" <==> blockData.None? || blockData.value.blockNumber.None?
    ensures s != "Unknown" ==> Decimal.AllDigits(s)
  {
    var digits := if blockData.Some? && blockData.value.blockNumber.Some?
                  then Decimal.NatToString(blockData.value.blockNumber.value) else "";
    if digits != "" then digits else "Unknown"
  }

  /** "Unknown" is shown exactly when the block number is missing; block 0 reads "0". */
  lemma BlockPlaceholder(blockData: Option<BlockData>)
    ensures BlockOf(blockData) == "Unknown"
            <==> blockData.None? || blockData.value.blockNumber.None?
    ensures blockData.Some? && blockData.value.blockNumber == Some(0) ==> BlockOf(blockData) == "0"
    ensures blockData.Some? && blockData.value.blockNumber.Some?
            ==> BlockOf(blockData) == Decimal.NatToString(blockData.value.blockNumber.value)
  {
  }

  function DepositKey(index: nat): string { "deposit-" + Decimal.NatToString(index) }
  function WithdrawalKey(index: nat): string { "withdrawal-" + Decimal.NatToString(index) }
  function EmergencyKey(index: nat): string { "emergency-" + Decimal.NatToString(index) }

  /**
   * A deposit's entry: keyed by its index, showing its amount and unlock time,
   * with the placeholders for missing block data.
   */
  function DepositEntry(e: LogEvent<DepositArgs>, index: nat): (r: Entry)
    ensures |r.key| > 8 && r.key[..8] == "deposit-" && r.key[8..] == Decimal.NatToString(index)
    ensures r.details.DepositDetails? && r.details.amount == e.args.amount
            && r.details.unlockTime == e.args.unlockTime
    ensures r.time.UnknownTime? <==> MissingTime(e.blockData)
    ensures r.block == "Unknown" <==> MissingBlock(e.blockData)
    ensures r.time == TimeOf(e.blockData) && r.block == BlockOf(e.blockData)
  {
    Entry(DepositKey(index), DepositDetails(e.args.amount, e.args.unlockTime),
          TimeOf(e.blockData), BlockOf(e.blockData))
  }

  /** A withdrawal's entry: keyed by its index, showing only its amount. */
  function WithdrawalEntry(e: LogEvent<WithdrawalArgs>, index: nat): (r: Entry)
    ensures |r.key| > 11 && r.key[..11] == "withdrawal-" && r.key[11..] == Decimal.NatToString(index)
    ensures r.details == WithdrawalDetails(e.args.amount)
    ensures r.time.UnknownTime? <==> MissingTime(e.blockData)
    ensures r.block == "Unknown" <==> MissingBlock(e.blockData)
    ensures r.time == TimeOf(e.blockData) && r.block == BlockOf(e.blockData)
  {
    Entry(WithdrawalKey(index), WithdrawalDetails(e.args.amount),
          TimeOf(e.blockData), BlockOf(e.blockData))
  }

  /**
   * An emergency withdrawal's entry: keyed by its index, showing the gross
   * amount and what was received after the 10% penalty.
   */
  function EmergencyEntry(e: LogEvent<SmashedArgs>, index: nat): (r: Entry)
    ensures |r.key| > 10 && r.key[..10] == "emergency-" && r.key[10..] == Decimal.NatToString(index)
    ensures r.details.EmergencyDetails? && r.details.amount == e.args.amount
    ensures r.details.received <= r.details.amount
            && r.details.received * 10 <= r.details.amount * 9 < r.details.received * 10 + 10
    ensures r.time.UnknownTime? <==> MissingTime(e.blockData)
    ensures r.block == "Unknown" <==> MissingBlock(e.blockData)
    ensures r.time == TimeOf(e.blockData) && r.block == BlockOf(e.blockData)
  {
    Entry(EmergencyKey(index), EmergencyDetails(e.args.amount, Received(e.args.amount)),
          TimeOf(e.blockData), BlockOf(e.blockData))
  }

  /** `log?.map(...)`: an absent log renders nothing. */
  function DepositEntries(log: Option<seq<LogEvent<DepositArgs>>>): (r: seq<Entry>)
    ensures |r| == |log.GetOr([])|
    ensures forall i :: 0 <= i < |r| ==> r[i] == DepositEntry(log.value[i], i)
  {
    var evs := log.GetOr([]);
    seq(|evs|, i requires 0 <= i < |evs| => DepositEntry(evs[i], i))
  }

  function WithdrawalEntries(log: Option<seq<LogEvent<WithdrawalArgs>>>): (r: seq<Entry>)
    ensures |r| == |log.GetOr([])|
    ensures forall i :: 0 <= i < |r| ==> r[i] == WithdrawalEntry(log.value[i], i)
  {
    var evs := log.GetOr([]);
    seq(|evs|, i requires 0 <= i < |evs| => WithdrawalEntry(evs[i], i))
  }

  function EmergencyEntries(log: Option<seq<LogEvent<SmashedArgs>>>): (r: seq<Entry>)
    ensures |r| == |log.GetOr([])|
    ensures forall i :: 0 <= i < |r| ==> r[i] == EmergencyEntry(log.value[i], i)
  {
    var evs := log.GetOr([]);
    seq(|evs|, i requires 0 <= i < |evs| => EmergencyEntry(evs[i], i))
  }

  /** `!log?.length`: the log is absent or empty. */
  predicate IsBlank<A>(log: Option<seq<A>>) {
    log.None? || |log.value| == 0
  }

  /** The component: the empty-history message when all three logs are blank, else the list. */
  function Render(deposits: Option<seq<LogEvent<DepositArgs>>>,
                  withdrawals: Option<seq<LogEvent<WithdrawalArgs>>>,
                  emergencies: Option<seq<LogEvent<SmashedArgs>>>): (h: History)
    ensures h.NoTransactions? <==> IsBlank(deposits) && IsBlank(withdrawals) && IsBlank(emergencies)
    ensures h.Transactions? ==>
      h.entries == DepositEntries(deposits) + WithdrawalEntries(withdrawals) + EmergencyEntries(emergencies)
  {
    if IsBlank(deposits) && IsBlank(withdrawals) && IsBlank(emergencies) then NoTransactions
    else Transactions(DepositEntries(deposits) + WithdrawalEntries(withdrawals) + EmergencyEntries(emergencies))
  }

  /**
   * The rendered list is the deposits, then the withdrawals, then the emergency
   * withdrawals, each in fetch order and numbered from 0 within its log; no
   * event is dropped and none is added.
   */
  lemma RenderedOrder(deposits: Option<seq<LogEvent<DepositArgs>>>,
                      withdrawals: Option<seq<LogEvent<WithdrawalArgs>>>,
                      emergencies: Option<seq<LogEvent<SmashedArgs>>>)
    requires !(IsBlank(deposits) && IsBlank(withdrawals) && IsBlank(emergencies))
    ensures Render(deposits, withdrawals, emergencies).Transactions?
    ensures var r := Render(deposits, withdrawals, emergencies).entries;
      var ds, ws, es := deposits.GetOr([]), withdrawals.GetOr([]), emergencies.GetOr([]);
      && |r| == |ds| + |ws| + |es|
      && (forall i :: 0 <= i < |ds| ==> r[i] == DepositEntry(ds[i], i))
      && (forall i :: 0 <= i < |ws| ==> r[|ds| + i] == WithdrawalEntry(ws[i], i))
      && (forall i :: 0 <= i < |es| ==> r[|ds| + |ws| + i] == EmergencyEntry(es[i], i))
  {
    var d, w, e := DepositEntries(deposits), WithdrawalEntries(withdrawals),
                   EmergencyEntries(emergencies);
    var ds, ws, es := deposits.GetOr([]), withdrawals.GetOr([]), emergencies.GetOr([]);
    var r := d + w + e;
    forall i | 0 <= i < |ds| ensures r[i] == DepositEntry(ds[i], i) {
      assert r[i] == d[i];
    }
    forall i | 0 <= i < |ws| ensures r[|ds| + i] == WithdrawalEntry(ws[i], i) {
      assert r[|ds| + i] == w[i];
    }
    forall i | 0 <= i < |es| ensures r[|ds| + |ws| + i] == EmergencyEntry(es[i], i) {
      assert r[|ds| + |ws| + i] == e[i];
    }
  }

  /**
   * Each entry's kind lines come from its own event: a deposit shows the amount
   * and unlock time, a withdrawal only the amount, an emergency withdrawal the
   * amount and what was received after the penalty.
   */
  lemma EntryFields(deposit: LogEvent<DepositArgs>, withdrawal: LogEvent<WithdrawalArgs>,
                    smashed: LogEvent<SmashedArgs>, index: nat)
    ensures DepositEntry(deposit, index).details
            == DepositDetails(deposit.args.amount, deposit.args.unlockTime)
    ensures WithdrawalEntry(withdrawal, index).details == WithdrawalDetails(withdrawal.args.amount)
    ensures var d := EmergencyEntry(smashed, index).details;
      d.EmergencyDetails? && d.amount == smashed.args.amount && d.received <= d.amount
      && d.received * 10 <= d.amount * 9 < d.received * 10 + 10
  {
  }

  /** Within a log, distinct indices give distinct keys. */
  lemma KeySuffix(prefix: string, i: nat, j: nat)
    requires prefix + Decimal.NatToString(i) == prefix + Decimal.NatToString(j)
    ensures i == j
  {
    var a, b := prefix + Decimal.NatToString(i), prefix + Decimal.NatToString(j);
    assert a[|prefix|..] == Decimal.NatToString(i);
    assert b[|prefix|..] == Decimal.NatToString(j);
    Decimal.NatToStringInjective(i, j);
  }

  /**
   * The key of position `p` in a list of `nd` deposits, then `nw` withdrawals,
   * then emergency withdrawals.
   */
  function KeyAtPosition(nd: nat, nw: nat, p: nat): string {
    if p < nd then DepositKey(p)
    else if p < nd + nw then WithdrawalKey(p - nd)
    else EmergencyKey(p - nd - nw)
  }

  /** Distinct positions have distinct keys. */
  lemma KeyAtPositionInjective(nd: nat, nw: nat, p: nat, q: nat)
    requires p < q
    ensures KeyAtPosition(nd, nw, p) != KeyAtPosition(nd, nw, q)
  {
    var kp, kq := KeyAtPosition(nd, nw, p), KeyAtPosition(nd, nw, q);
    if q < nd {
      if kp == kq { KeySuffix("deposit-", p, q); }
    } else if p < nd {
      assert kp[0] != kq[0];
    } else if q < nd + nw {
      if kp == kq { KeySuffix("withdrawal-", p - nd, q - nd); }
    } else if p < nd + nw {
      assert kp[0] != kq[0];
    } else {
      if kp == kq { KeySuffix("emergency-", p - nd - nw, q - nd - nw); }
    }
  }

  /** Each entry of a concatenation of keyed logs has the key of its position. */
  lemma KeysByPosition(d: seq<Entry>, w: seq<Entry>, e: seq<Entry>, p: nat)
    requires forall i :: 0 <= i < |d| ==> d[i].key == DepositKey(i)
    requires forall i :: 0 <= i < |w| ==> w[i].key == WithdrawalKey(i)
    requires forall i :: 0 <= i < |e| ==> e[i].key == EmergencyKey(i)
    requires p < |d| + |w| + |e|
    ensures (d + w + e)[p].key == KeyAtPosition(|d|, |w|, p)
  {
    if p < |d| {
      assert (d + w + e)[p] == d[p];
    } else if p < |d| + |w| {
      assert (d + w + e)[p] == w[p - |d|];
    } else {
      assert (d + w + e)[p] == e[p - |d| - |w|];
    }
  }

  /** No two entries of the rendered list share a React key. */
  lemma KeysDistinct(deposits: Option<seq<LogEvent<DepositArgs>>>,
                     withdrawals: Option<seq<LogEvent<WithdrawalArgs>>>,
                     emergencies: Option<seq<LogEvent<SmashedArgs>>>)
    ensures var h := Render(deposits, withdrawals, emergencies);
      h.Transactions? ==>
        forall p, q :: 0 <= p < q < |h.entries| ==> h.entries[p].key != h.entries[q].key
  {
    var h := Render(deposits, withdrawals, emergencies);
    if h.Transactions? {
      var d, w, e := DepositEntries(deposits), WithdrawalEntries(withdrawals),
                     EmergencyEntries(emergencies);
      forall p, q | 0 <= p < q < |d + w + e|
        ensures (d + w + e)[p].key != (d + w + e)[q].key
      {
        KeysByPosition(d, w, e, p);
        KeysByPosition(d, w, e, q);
        KeyAtPositionInjective(|d|, |w|, p, q);
      }
    }
  }

  /** The empty-history message is shown exactly when there is nothing to list. */
  lemma EmptyMessageIffNoEntries(deposits: Option<seq<LogEvent<DepositArgs>>>,
                                 withdrawals: Option<seq<LogEvent<WithdrawalArgs>>>,
                                 emergencies: Option<seq<LogEvent<SmashedArgs>>>)
    ensures Render(deposits, withdrawals, emergencies).NoTransactions?
            <==> DepositEntries(deposits) + WithdrawalEntries(withdrawals)
                 + EmergencyEntries(emergencies) == []
  {
  }
}
