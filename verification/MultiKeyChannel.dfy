/**
 Managing the keys of a multi-key channel. The keys are one newline-separated text; the
 status, time and reason of a disabled key sit in maps keyed by the key's position, so
 deleting keys has to re-index them. The channel itself is switched off when no key is
 left enabled, and on again when one is.
 */
module MultiKeyChannel {
  import opened Text
  import opened Wrappers

  const ENABLED := 1
  const MANUALLY_DISABLED := 2
  const AUTO_DISABLED := 3
  const ALL_KEYS_DISABLED := "All keys are disabled"
  const NEWLINE := '\n'

  /** Reads a key text as a JSON array, if it is one. */
  type Decoder = string -> Option<seq<string>>

  /** The stored channel, as far as key management is concerned. */
  datatype Row = Row(
    keyText: string,
    size: int,
    status: int,
    statusReason: string,
    keyStatus: map<int, int>,
    disabledTime: map<int, int>,
    disabledReason: map<int, string>
  )

  function GetKeys(decode: Decoder, text: string): seq<string> {
    if text == "" then []
    else match decode(text)
      case Some(keys) => keys
      case None => Parse(text, NEWLINE)
  }

  function StatusAt(keyStatus: map<int, int>, i: int): int {
    if i in keyStatus then keyStatus[i] else ENABLED
  }

  function Lookup<T>(m: map<int, T>, i: int): Option<T> {
    if i in m then Some(m[i]) else None
  }

  /** One key with everything recorded about it. */
  datatype Record = Record(key: string, status: int, time: Option<int>, reason: Option<string>)

  /** The channel as a list of keys: what the position-keyed maps stand for. */
  function Records(decode: Decoder, row: Row): seq<Record> {
    var keys := GetKeys(decode, row.keyText);
    seq(|keys|, i requires 0 <= i < |keys| =>
      Record(keys[i], StatusAt(row.keyStatus, i), Lookup(row.disabledTime, i), Lookup(row.disabledReason, i)))
  }

  predicate HasEnabled(keys: seq<string>, keyStatus: map<int, int>) {
    exists i :: 0 <= i < |keys| && StatusAt(keyStatus, i) == ENABLED
  }

  predicate Available(decode: Decoder, row: Row) {
    HasEnabled(GetKeys(decode, row.keyText), row.keyStatus)
  }

  // ------------------------------------------------- storing a list of records

  function KeysOf(records: seq<Record>): seq<string> {
    seq(|records|, i requires 0 <= i < |records| => records[i].key)
  }

  function StatusMap(records: seq<Record>): map<int, int> {
    map i | 0 <= i < |records| && records[i].status != ENABLED :: records[i].status
  }

  function TimeMap(records: seq<Record>): map<int, int> {
    map i | 0 <= i < |records| && records[i].time.Some? :: records[i].time.value
  }

  function ReasonMap(records: seq<Record>): map<int, string> {
    map i | 0 <= i < |records| && records[i].reason.Some? :: records[i].reason.value
  }

  /** The row with exactly these records. */
  function WithRecords(row: Row, records: seq<Record>): Row {
    row.(keyText := Join(KeysOf(records), NEWLINE), size := |records|,
         keyStatus := StatusMap(records), disabledTime := TimeMap(records), disabledReason := ReasonMap(records))
  }

  /** The keys of these records come back when their text is read again. */
  predicate Reloads(decode: Decoder, records: seq<Record>) {
    GetKeys(decode, Join(KeysOf(records), NEWLINE)) == KeysOf(records)
  }

  /** What a caller can check of keys that are to be stored: their text is not empty and reads as these keys. */
  predicate ReadsBack(decode: Decoder, keys: seq<string>) {
    var text := Join(keys, NEWLINE);
    && text != ""
    && match decode(text)
       case Some(again) => again == keys
       case None => Storable(keys, NEWLINE)
  }

  lemma ReadsBackExactly(decode: Decoder, records: seq<Record>)
    ensures ReadsBack(decode, KeysOf(records)) <==> records != [] && Reloads(decode, records)
  {
    ParseJoin(KeysOf(records), NEWLINE);
    if records == [] {
      assert KeysOf(records) == [];
    }
  }

  lemma KeysOfRecords(decode: Decoder, row: Row)
    ensures KeysOf(Records(decode, row)) == GetKeys(decode, row.keyText)
  {
  }

  /** Positions line up again exactly when the key text reads back as the keys. */
  lemma WithRecordsKeepsRecords(decode: Decoder, row: Row, records: seq<Record>)
    ensures Records(decode, WithRecords(row, records)) == records <==> Reloads(decode, records)
  {
    KeysOfRecords(decode, WithRecords(row, records));
    if Reloads(decode, records) {
      var again := Records(decode, WithRecords(row, records));
      assert |again| == |records|;
      forall i | 0 <= i < |records| ensures again[i] == records[i] {
        assert again[i].key == KeysOf(records)[i];
      }
    }
  }

  // ------------------------------------------------------------- switching

  function DisableIfUnavailable(decode: Decoder, row: Row): Row {
    if !Available(decode, row) && row.status == ENABLED
    then row.(status := MANUALLY_DISABLED, statusReason := ALL_KEYS_DISABLED)
    else row
  }

  function RestoreIfAvailable(decode: Decoder, row: Row): Row {
    if row.status == MANUALLY_DISABLED && Available(decode, row) && row.statusReason == ALL_KEYS_DISABLED
    then row.(status := ENABLED, statusReason := "")
    else row
  }

  /** Update counts the keys itself and falls back to lines when the array is empty. */
  function CountKeys(decode: Decoder, text: string): nat {
    if text == "" then 0
    else match decode(text)
      case Some(keys) => if keys == [] then |Parse(text, NEWLINE)| else |keys|
      case None => |Parse(text, NEWLINE)|
  }

  /** Saving a changed row: an empty key text is not written, so the stored one remains. */
  function Update(decode: Decoder, stored: string, row: Row): Row {
    var text := if row.keyText == "" then stored else row.keyText;
    var size := CountKeys(decode, text);
    row.(keyText := text, size := size,
         keyStatus := map i | i in row.keyStatus && i < size :: row.keyStatus[i])
  }

  // --------------------------------------------------------------- actions

  datatype Action =
    | DisableKey(index: Option<int>)
    | EnableKey(index: Option<int>)
    | EnableAllKeys
    | DisableAllKeys
    | DeleteKey(index: Option<int>)
    | DeleteDisabledKeys

  predicate InRange(row: Row, index: Option<int>) {
    index.Some? && 0 <= index.value < row.size
  }

  /** The statuses after the enabled keys below a position were disabled. */
  function DisabledBelow(status: map<int, int>, n: int): map<int, int> {
    status + map j | 0 <= j < n && StatusAt(status, j) == ENABLED :: MANUALLY_DISABLED
  }

  /** How many of the keys below a position are enabled. */
  function EnabledBelow(status: map<int, int>, n: int): nat
    decreases if n < 0 then 0 else n
  {
    if n <= 0 then 0 else EnabledBelow(status, n - 1) + if StatusAt(status, n - 1) == ENABLED then 1 else 0
  }

  function AllDisabled(row: Row): map<int, int> {
    DisabledBelow(row.keyStatus, row.size)
  }

  function RemoveAt(records: seq<Record>, index: int): seq<Record> {
    if 0 <= index < |records| then records[..index] + records[index + 1..] else records
  }

  /** Keeps every key that is not auto-disabled; an enabled one starts with a clean record. */
  function Cleaned(records: seq<Record>): seq<Record> {
    if records == [] then []
    else
      var rest := Cleaned(records[..|records| - 1]);
      var r := records[|records| - 1];
      if r.status == AUTO_DISABLED then rest
      else if r.status == ENABLED then rest + [r.(time := None, reason := None)]
      else rest + [r]
  }

  /** The records that remain when the action goes through. */
  function Survivors(decode: Decoder, row: Row, a: Action): seq<Record> {
    match a
    case DeleteKey(index) => if index.Some? then RemoveAt(Records(decode, row), index.value) else Records(decode, row)
    case DeleteDisabledKeys => Cleaned(Records(decode, row))
    case _ => Records(decode, row)
  }

  predicate Succeeds(decode: Decoder, row: Row, a: Action) {
    match a
    case DisableKey(index) => InRange(row, index)
    case EnableKey(index) => InRange(row, index)
    case EnableAllKeys => true
    case DisableAllKeys => exists i :: 0 <= i < row.size && StatusAt(row.keyStatus, i) == ENABLED
    case DeleteKey(index) => InRange(row, index) && Survivors(decode, row, a) != []
    case DeleteDisabledKeys => |Survivors(decode, row, a)| < |Records(decode, row)|
  }

  predicate Deletes(a: Action) {
    a.DeleteKey? || a.DeleteDisabledKeys?
  }

  /** The row in memory when it is about to be saved. */
  function Changed(decode: Decoder, row: Row, a: Action): Row
    requires Succeeds(decode, row, a)
  {
    match a
    case DisableKey(index) =>
      DisableIfUnavailable(decode, row.(keyStatus := row.keyStatus[index.value := MANUALLY_DISABLED]))
    case EnableKey(index) =>
      var gone := {index.value};
      RestoreIfAvailable(decode, row.(keyStatus := row.keyStatus - gone,
                                      disabledTime := row.disabledTime - gone,
                                      disabledReason := row.disabledReason - gone))
    case EnableAllKeys =>
      RestoreIfAvailable(decode, row.(keyStatus := map[], disabledTime := map[], disabledReason := map[]))
    case DisableAllKeys => DisableIfUnavailable(decode, row.(keyStatus := AllDisabled(row)))
    case DeleteKey(_) => DisableIfUnavailable(decode, WithRecords(row, Survivors(decode, row, a)))
    case DeleteDisabledKeys => DisableIfUnavailable(decode, WithRecords(row, Survivors(decode, row, a)))
  }

  function Act(decode: Decoder, row: Row, a: Action): Row {
    if Succeeds(decode, row, a) then Update(decode, row.keyText, Changed(decode, row, a)) else row
  }

  // ---------------------------------------------------------------- one action

  /** Switched on, or switched off because no key was enabled. */
  predicate FollowsKeys(row: Row) {
    row.status == ENABLED || (row.status == MANUALLY_DISABLED && row.statusReason == ALL_KEYS_DISABLED)
  }

  /** An enabled channel has an enabled key. */
  predicate Coherent(decode: Decoder, row: Row) {
    row.status == ENABLED ==> Available(decode, row)
  }

  /** A channel that follows its keys is on exactly when one of them is enabled. */
  predicate Settled(decode: Decoder, row: Row) {
    FollowsKeys(row) ==> (row.status == ENABLED <==> Available(decode, row))
  }

  lemma CountMatches(decode: Decoder, text: string)
    requires GetKeys(decode, text) != []
    ensures CountKeys(decode, text) == |GetKeys(decode, text)|
  {
  }

  /** Saving a row under its own key text changes nothing that the keys can see. */
  lemma UpdateKeepsAvailability(decode: Decoder, stored: string, row: Row)
    requires row.keyText != "" || stored == ""
    ensures Available(decode, Update(decode, stored, row)) == Available(decode, row)
  {
    var saved := Update(decode, stored, row);
    var keys := GetKeys(decode, row.keyText);
    if keys != [] {
      CountMatches(decode, row.keyText);
      assert forall i :: 0 <= i < |keys| ==> StatusAt(saved.keyStatus, i) == StatusAt(row.keyStatus, i);
    }
  }

  lemma ActKeepsCoherent(decode: Decoder, row: Row, a: Action)
    requires Coherent(decode, row)
    ensures Coherent(decode, Act(decode, row, a))
  {
    if Succeeds(decode, row, a) {
      var changed := Changed(decode, row, a);
      if changed.keyText != "" {
        UpdateKeepsAvailability(decode, row.keyText, changed);
      }
      if a.EnableKey? && Available(decode, row) {
        var i :| 0 <= i < |GetKeys(decode, row.keyText)| && StatusAt(row.keyStatus, i) == ENABLED;
        assert StatusAt(changed.keyStatus, i) == ENABLED;
      }
      if a.EnableAllKeys? && Available(decode, row) {
        var i :| 0 <= i < |GetKeys(decode, row.keyText)| && StatusAt(row.keyStatus, i) == ENABLED;
        assert StatusAt(changed.keyStatus, i) == ENABLED;
      }
    }
  }

  /** A channel that is off for another reason stays as it is. */
  lemma ActKeepsOtherReasons(decode: Decoder, row: Row, a: Action)
    requires !FollowsKeys(row)
    ensures Act(decode, row, a).status == row.status && Act(decode, row, a).statusReason == row.statusReason
  {
  }

  /** The key count is the one that saving computes. */
  predicate Consistent(decode: Decoder, row: Row) {
    row.size == CountKeys(decode, row.keyText)
  }

  lemma ActKeepsConsistent(decode: Decoder, row: Row, a: Action)
    requires Consistent(decode, row)
    ensures Consistent(decode, Act(decode, row, a))
  {
  }

  /** The two ways of counting differ only for an empty array, from which nothing can be deleted. */
  lemma DeletionIsOfKeys(decode: Decoder, row: Row, a: Action)
    requires Consistent(decode, row) && Deletes(a) && Succeeds(decode, row, a)
    ensures row.size == |GetKeys(decode, row.keyText)| > 0
  {
    if GetKeys(decode, row.keyText) != [] {
      CountMatches(decode, row.keyText);
    }
  }

  lemma OthersKeepSettled(decode: Decoder, row: Row, a: Action)
    requires Settled(decode, row) && !Deletes(a)
    ensures Settled(decode, Act(decode, row, a))
  {
    if Succeeds(decode, row, a) {
      UpdateKeepsAvailability(decode, row.keyText, Changed(decode, row, a));
      ActKeepsCoherent(decode, row, a);
      if a.DisableKey? && !Available(decode, row) {
        NothingEnabled(decode, row, row.(keyStatus := row.keyStatus[a.index.value := MANUALLY_DISABLED]));
      }
      if a.DisableAllKeys? && !Available(decode, row) {
        NothingEnabled(decode, row, row.(keyStatus := AllDisabled(row)));
      }
    }
  }

  lemma NothingEnabled(decode: Decoder, row: Row, changed: Row)
    requires !Available(decode, row) && changed.keyText == row.keyText
    requires forall i :: StatusAt(row.keyStatus, i) != ENABLED ==> StatusAt(changed.keyStatus, i) != ENABLED
    ensures !Available(decode, changed)
  {
  }

  /** The key text that a deletion leaves in memory. */
  function RemainingText(decode: Decoder, row: Row, a: Action): string {
    Join(KeysOf(Survivors(decode, row, a)), NEWLINE)
  }

  /**
   The stored text does not turn into more keys than survive. It does when nothing
   survives, because an empty text is not written.
   */
  predicate KeepsTrack(decode: Decoder, row: Row, a: Action) {
    && RemainingText(decode, row, a) != ""
    && (row.status == ENABLED || |GetKeys(decode, RemainingText(decode, row, a))| <= |Survivors(decode, row, a)|)
  }

  lemma {:induction false} CleanedIsShorter(records: seq<Record>)
    ensures |Cleaned(records)| <= |records|
    ensures (forall i :: 0 <= i < |records| ==> records[i].status != ENABLED)
      ==> forall i :: 0 <= i < |Cleaned(records)| ==> Cleaned(records)[i].status != ENABLED
  {
    if records != [] { CleanedIsShorter(records[..|records| - 1]); }
  }

  lemma DeletionShortens(decode: Decoder, row: Row, a: Action)
    requires Deletes(a) && Succeeds(decode, row, a) && Consistent(decode, row)
    ensures |Survivors(decode, row, a)| < |Records(decode, row)|
    ensures !Available(decode, row) ==>
      forall i :: 0 <= i < |Survivors(decode, row, a)| ==> Survivors(decode, row, a)[i].status != ENABLED
  {
    DeletionIsOfKeys(decode, row, a);
    CleanedIsShorter(Records(decode, row));
  }

  lemma AvailableWithRecords(decode: Decoder, row: Row, records: seq<Record>)
    requires forall i :: 0 <= i < |records| ==> records[i].status != ENABLED
    ensures Available(decode, WithRecords(row, records))
       <==> |GetKeys(decode, Join(KeysOf(records), NEWLINE))| > |records|
  {
    var keys := GetKeys(decode, Join(KeysOf(records), NEWLINE));
    if |keys| > |records| {
      assert StatusAt(StatusMap(records), |records|) == ENABLED;
    }
  }

  /** After a deletion the channel still follows its keys exactly when the text keeps track of them. */
  lemma DeletionSettledExactly(decode: Decoder, row: Row, a: Action)
    requires Settled(decode, row) && FollowsKeys(row) && Consistent(decode, row)
    requires Deletes(a) && Succeeds(decode, row, a)
    ensures Settled(decode, Act(decode, row, a)) <==> KeepsTrack(decode, row, a)
  {
    var records := Survivors(decode, row, a);
    var changed := Changed(decode, row, a);
    var saved := Act(decode, row, a);
    DeletionShortens(decode, row, a);
    if RemainingText(decode, row, a) != "" {
      UpdateKeepsAvailability(decode, row.keyText, changed);
      if row.status != ENABLED {
        AvailableWithRecords(decode, row, records);
      }
    } else {
      assert StatusAt(saved.keyStatus, |records|) == ENABLED;
      assert Available(decode, saved);
    }
  }

  /** Deleting the only key, auto-disabled, brings it back enabled while the channel stays off. */
  lemma DeletingAllKeysLosesTrack(decode: Decoder)
    requires decode("k") == None
    ensures var row := Row("k", 1, MANUALLY_DISABLED, ALL_KEYS_DISABLED, map[0 := AUTO_DISABLED], map[], map[]);
      && Settled(decode, row) && Consistent(decode, row) && Succeeds(decode, row, DeleteDisabledKeys)
      && !Settled(decode, Act(decode, row, DeleteDisabledKeys))
      && GetKeys(decode, Act(decode, row, DeleteDisabledKeys).keyText) == ["k"]
  {
    var row := Row("k", 1, MANUALLY_DISABLED, ALL_KEYS_DISABLED, map[0 := AUTO_DISABLED], map[], map[]);
    SplitJoin(["k"], NEWLINE);
    assert Trim("k", NEWLINE) == "k";
    assert GetKeys(decode, "k") == ["k"];
    assert Records(decode, row) == [Record("k", AUTO_DISABLED, None, None)];
    assert Cleaned(Records(decode, row)) == [];
    DeletionSettledExactly(decode, row, DeleteDisabledKeys);
  }

  /** A deletion whose surviving keys read back as themselves. */
  predicate DeletesCleanly(decode: Decoder, row: Row, a: Action) {
    Deletes(a) && Succeeds(decode, row, a) ==> ReadsBack(decode, KeysOf(Survivors(decode, row, a)))
  }

  lemma ActKeepsSettled(decode: Decoder, row: Row, a: Action)
    requires Settled(decode, row) && Consistent(decode, row) && DeletesCleanly(decode, row, a)
    ensures Settled(decode, Act(decode, row, a)) && Consistent(decode, Act(decode, row, a))
  {
    ActKeepsConsistent(decode, row, a);
    if !FollowsKeys(row) {
      ActKeepsOtherReasons(decode, row, a);
    } else if Deletes(a) {
      if Succeeds(decode, row, a) {
        ReadsBackExactly(decode, Survivors(decode, row, a));
        DeletionSettledExactly(decode, row, a);
      }
    } else {
      OthersKeepSettled(decode, row, a);
    }
  }

  // ------------------------------------------------------- actions on the list

  /** What each action means for the list of records. */
  function RecordsAfter(records: seq<Record>, a: Action): seq<Record> {
    match a
    case DisableKey(index) =>
      if index.Some? && 0 <= index.value < |records|
      then records[index.value := records[index.value].(status := MANUALLY_DISABLED)] else records
    case EnableKey(index) =>
      if index.Some? && 0 <= index.value < |records|
      then records[index.value := Record(records[index.value].key, ENABLED, None, None)] else records
    case EnableAllKeys =>
      seq(|records|, i requires 0 <= i < |records| => Record(records[i].key, ENABLED, None, None))
    case DisableAllKeys =>
      seq(|records|, i requires 0 <= i < |records| =>
        if records[i].status == ENABLED then records[i].(status := MANUALLY_DISABLED) else records[i])
    case DeleteKey(index) => if index.Some? then RemoveAt(records, index.value) else records
    case DeleteDisabledKeys => Cleaned(records)
  }

  lemma UpdateKeepsRecords(decode: Decoder, stored: string, row: Row)
    requires row.keyText != "" || stored == ""
    ensures Records(decode, Update(decode, stored, row)) == Records(decode, row)
  {
    if GetKeys(decode, row.keyText) != [] {
      CountMatches(decode, row.keyText);
    }
  }

  /** Nothing survives in the text, so the stored keys remain, and they are more than the survivors. */
  lemma EmptyTextKeepsKeys(decode: Decoder, row: Row, a: Action)
    requires Consistent(decode, row) && Deletes(a) && Succeeds(decode, row, a) && RemainingText(decode, row, a) == ""
    ensures |Records(decode, Act(decode, row, a))| > |Survivors(decode, row, a)|
  {
    DeletionShortens(decode, row, a);
  }

  /**
   A deletion leaves exactly the surviving keys, in order and each with its status, time and
   reason, if and only if the text of the survivors reads back.
   */
  lemma DeletionExactly(decode: Decoder, row: Row, a: Action)
    requires Consistent(decode, row) && Deletes(a) && Succeeds(decode, row, a)
    ensures Records(decode, Act(decode, row, a)) == RecordsAfter(Records(decode, row), a)
       <==> ReadsBack(decode, KeysOf(Survivors(decode, row, a)))
  {
    var records := Survivors(decode, row, a);
    ReadsBackExactly(decode, records);
    if RemainingText(decode, row, a) == "" {
      EmptyTextKeepsKeys(decode, row, a);
    } else {
      WithRecordsKeepsRecords(decode, row, records);
      SwitchingKeepsRecords(decode, WithRecords(row, records));
      UpdateKeepsRecords(decode, row.keyText, Changed(decode, row, a));
    }
  }

  /** A JSON array of an object that is written on two lines, and a string. */
  const ARRAY := "[{\n},\"k\"]"

  /** A key of a JSON array that spans lines is torn into several keys when another one is deleted. */
  lemma DeletionTearsKeys(decode: Decoder)
    requires decode(ARRAY) == Some(["{\n}", "\"k\""]) && decode("{\n}") == None
    ensures var row := Row(ARRAY, 2, ENABLED, "", map[], map[], map[]);
      && Consistent(decode, row) && Succeeds(decode, row, DeleteKey(Some(1)))
      && GetKeys(decode, row.keyText) == ["{\n}", "\"k\""]
      && GetKeys(decode, Act(decode, row, DeleteKey(Some(1))).keyText) == ["{", "}"]
  {
    var row := Row(ARRAY, 2, ENABLED, "", map[], map[], map[]);
    var survivors := Survivors(decode, row, DeleteKey(Some(1)));
    assert KeysOf(survivors) == ["{\n}"];
    assert Join(["{\n}"], NEWLINE) == "{\n}" == Join(["{", "}"], NEWLINE);
    ParseJoin(["{", "}"], NEWLINE);
  }

  lemma ChangedRecords(decode: Decoder, row: Row, a: Action)
    requires Consistent(decode, row) && Succeeds(decode, row, a) && !Deletes(a)
    ensures Records(decode, Changed(decode, row, a)) == RecordsAfter(Records(decode, row), a)
  {
  }

  lemma SwitchingKeepsRecords(decode: Decoder, row: Row)
    ensures Records(decode, DisableIfUnavailable(decode, row)) == Records(decode, row)
    ensures Records(decode, RestoreIfAvailable(decode, row)) == Records(decode, row)
  {
  }

  /** The action did to the list of records what its name says, and kept all other records as they were. */
  ghost predicate Does(decode: Decoder, row: Row, a: Action) {
    Records(decode, Act(decode, row, a))
      == if Succeeds(decode, row, a) then RecordsAfter(Records(decode, row), a) else Records(decode, row)
  }

  /**
   The maps keyed by position behave as one list of records under every action, except
   exactly under a deletion whose survivors do not read back.
   */
  lemma ActOnRecords(decode: Decoder, row: Row, a: Action)
    requires Consistent(decode, row)
    ensures Does(decode, row, a) <==> DeletesCleanly(decode, row, a)
  {
    hide Act, ReadsBack, RecordsAfter, Records;
    if Succeeds(decode, row, a) {
      if Deletes(a) {
        DeletionExactly(decode, row, a);
      } else {
        ChangedRecords(decode, row, a);
        OthersSaveRecords(decode, row, a);
      }
    } else {
      FailureKeepsRow(decode, row, a);
    }
  }

  lemma OthersSaveRecords(decode: Decoder, row: Row, a: Action)
    requires Succeeds(decode, row, a) && !Deletes(a)
    ensures Records(decode, Act(decode, row, a)) == Records(decode, Changed(decode, row, a))
  {
    UpdateKeepsRecords(decode, row.keyText, Changed(decode, row, a));
  }

  lemma FailureKeepsRow(decode: Decoder, row: Row, a: Action)
    requires !Succeeds(decode, row, a)
    ensures Act(decode, row, a) == row
  {
  }

  /** The key text that is stored after a deletion. */
  function SavedText(decode: Decoder, row: Row, a: Action): string {
    if RemainingText(decode, row, a) == "" then row.keyText else RemainingText(decode, row, a)
  }

  /** No map has a position beyond the keys. */
  ghost predicate Positioned(row: Row) {
    forall i :: i in row.keyStatus || i in row.disabledTime || i in row.disabledReason ==> 0 <= i < row.size
  }

  lemma SavedMaps(decode: Decoder, row: Row, a: Action)
    requires Deletes(a) && Succeeds(decode, row, a)
    ensures var saved, records := Act(decode, row, a), Survivors(decode, row, a);
      && saved.keyText == SavedText(decode, row, a) && saved.size == CountKeys(decode, SavedText(decode, row, a))
      && saved.disabledTime == TimeMap(records) && saved.disabledReason == ReasonMap(records)
      && forall i :: i in saved.keyStatus ==> 0 <= i < saved.size
  {
  }

  /** The records with a time or reason come before this position. */
  ghost predicate MarkedBelow(records: seq<Record>, n: int) {
    forall i :: 0 <= i < |records| && (records[i].time.Some? || records[i].reason.Some?) ==> i < n
  }

  lemma PositionedExactly(saved: Row, records: seq<Record>)
    requires saved.disabledTime == TimeMap(records) && saved.disabledReason == ReasonMap(records)
    requires forall i :: i in saved.keyStatus ==> 0 <= i < saved.size
    ensures Positioned(saved) <==> MarkedBelow(records, saved.size)
  {
    if Positioned(saved) {
      forall i | 0 <= i < |records| && (records[i].time.Some? || records[i].reason.Some?) ensures i < saved.size {
        assert i in saved.disabledTime || i in saved.disabledReason;
      }
    }
  }

  /**
   After a deletion the key count is that of the stored text, and no map has a position
   beyond it exactly when the survivors with a time or reason come before it. Both hold,
   with the number of survivors, if these read back.
   */
  lemma DeletionKeepsPositions(decode: Decoder, row: Row, a: Action)
    requires Deletes(a) && Succeeds(decode, row, a)
    ensures var saved, records := Act(decode, row, a), Survivors(decode, row, a);
      && saved.size == CountKeys(decode, SavedText(decode, row, a))
      && (Positioned(saved) <==> MarkedBelow(records, saved.size))
      && (DeletesCleanly(decode, row, a) ==> saved.size == |records| && Positioned(saved))
  {
    hide Act, Positioned, TimeMap, ReasonMap, Records, Succeeds;
    var saved, records := Act(decode, row, a), Survivors(decode, row, a);
    SavedMaps(decode, row, a);
    PositionedExactly(saved, records);
    if DeletesCleanly(decode, row, a) {
      ReadsBackExactly(decode, records);
      CountMatches(decode, RemainingText(decode, row, a));
    }
  }

  /** Line-separated keys read back exactly when they are non-empty at both ends and free of newlines. */
  lemma ReloadsExactly(decode: Decoder, records: seq<Record>)
    requires decode(Join(KeysOf(records), NEWLINE)) == None
    ensures Reloads(decode, records) <==> Storable(KeysOf(records), NEWLINE)
  {
    ParseJoin(KeysOf(records), NEWLINE);
  }

  // --------------------------------------------------- the actions in terms of keys

  lemma {:induction false} CleanedLoses(records: seq<Record>)
    ensures |Cleaned(records)| <= |records|
    ensures |Cleaned(records)| < |records| <==> exists i :: 0 <= i < |records| && records[i].status == AUTO_DISABLED
  {
    if records != [] {
      var n := |records| - 1;
      CleanedLoses(records[..n]);
      if i :| 0 <= i < |records[..n]| && records[..n][i].status == AUTO_DISABLED {
        assert records[i].status == AUTO_DISABLED;
      }
      if i :| 0 <= i < |records| && records[i].status == AUTO_DISABLED {
        assert i < n ==> records[..n][i].status == AUTO_DISABLED;
      }
    }
  }

  /** When each action on a channel with keys goes through; 1 is enabled and 3 auto-disabled. */
  lemma SucceedsExactly(decode: Decoder, row: Row, i: int)
    requires Consistent(decode, row) && Records(decode, row) != []
    ensures var records := Records(decode, row);
      && (Succeeds(decode, row, DisableKey(Some(i))) <==> 0 <= i < |records|)
      && (Succeeds(decode, row, EnableKey(Some(i))) <==> 0 <= i < |records|)
      && (Succeeds(decode, row, DeleteKey(Some(i))) <==> 0 <= i < |records| && |records| > 1)
      && (Succeeds(decode, row, DisableAllKeys) <==> exists k :: 0 <= k < |records| && records[k].status == 1)
      && (Succeeds(decode, row, DeleteDisabledKeys) <==> exists k :: 0 <= k < |records| && records[k].status == 3)
      && Succeeds(decode, row, EnableAllKeys)
    ensures !Succeeds(decode, row, DisableKey(None)) && !Succeeds(decode, row, EnableKey(None))
    ensures !Succeeds(decode, row, DeleteKey(None))
  {
    var records := Records(decode, row);
    CountMatches(decode, row.keyText);
    assert row.size == |records|;
    CleanedLoses(records);
    if k :| 0 <= k < row.size && StatusAt(row.keyStatus, k) == ENABLED {
      assert records[k].status == 1;
    }
    if k :| 0 <= k < |records| && records[k].status == 1 {
      assert StatusAt(row.keyStatus, k) == ENABLED;
    }
  }

  /** Nothing but the record at this position differs. */
  ghost predicate OnlyAt(before: seq<Record>, after: seq<Record>, i: int) {
    |after| == |before| && forall k :: 0 <= k < |before| && k != i ==> after[k] == before[k]
  }

  lemma OtherActionDoes(decode: Decoder, row: Row, a: Action)
    requires Consistent(decode, row) && Succeeds(decode, row, a) && !Deletes(a)
    ensures Records(decode, Act(decode, row, a)) == RecordsAfter(Records(decode, row), a)
  {
    ActOnRecords(decode, row, a);
  }

  /** Disabling a key marks it manually disabled (2); enabling it clears its record (1). */
  lemma KeyActionsDo(decode: Decoder, row: Row, i: int)
    requires Consistent(decode, row) && 0 <= i < |Records(decode, row)|
    ensures var before, after := Records(decode, row), Records(decode, Act(decode, row, DisableKey(Some(i))));
      OnlyAt(before, after, i) && after[i] == Record(before[i].key, 2, before[i].time, before[i].reason)
    ensures var before, after := Records(decode, row), Records(decode, Act(decode, row, EnableKey(Some(i))));
      OnlyAt(before, after, i) && after[i] == Record(before[i].key, 1, None, None)
  {
    hide Act, Records;
    SucceedsExactly(decode, row, i);
    OtherActionDoes(decode, row, DisableKey(Some(i)));
    OtherActionDoes(decode, row, EnableKey(Some(i)));
  }

  /** Enabling all keys clears all records; disabling all marks the enabled ones and leaves the others. */
  lemma AllActionsDo(decode: Decoder, row: Row)
    requires Consistent(decode, row) && Records(decode, row) != []
    ensures var before, after := Records(decode, row), Records(decode, Act(decode, row, EnableAllKeys));
      |after| == |before| && forall k :: 0 <= k < |before| ==> after[k] == Record(before[k].key, 1, None, None)
    ensures var before, after := Records(decode, row), Records(decode, Act(decode, row, DisableAllKeys));
      && |after| == |before|
      && forall k :: 0 <= k < |before| ==>
           && after[k].key == before[k].key && after[k].time == before[k].time && after[k].reason == before[k].reason
           && after[k].status == if before[k].status == 1 then 2 else before[k].status
  {
    hide Act, Records;
    SucceedsExactly(decode, row, 0);
    OtherActionDoes(decode, row, EnableAllKeys);
    if Succeeds(decode, row, DisableAllKeys) {
      OtherActionDoes(decode, row, DisableAllKeys);
    } else {
      FailureKeepsRow(decode, row, DisableAllKeys);
    }
  }

  /** Deleting a key leaves the keys before and after it, with their records, if these read back. */
  lemma DeleteKeyDoes(decode: Decoder, row: Row, i: int)
    requires Consistent(decode, row) && 0 <= i < |Records(decode, row)| && |Records(decode, row)| > 1
    requires DeletesCleanly(decode, row, DeleteKey(Some(i)))
    ensures var before, after := Records(decode, row), Records(decode, Act(decode, row, DeleteKey(Some(i))));
      && |after| == |before| - 1
      && (forall k :: 0 <= k < i ==> after[k] == before[k])
      && (forall k :: i <= k < |after| ==> after[k] == before[k + 1])
  {
    hide Act, Records, ReadsBack;
    SucceedsExactly(decode, row, i);
    ActOnRecords(decode, row, DeleteKey(Some(i)));
  }

  /** The place of a surviving key: how many before it survive. */
  function SurvivorsBefore(records: seq<Record>, i: nat): nat
    requires i <= |records|
  {
    if i == 0 then 0 else SurvivorsBefore(records, i - 1) + if records[i - 1].status == 3 then 0 else 1
  }

  lemma {:induction false} CleanedAt(records: seq<Record>, i: nat, n: nat)
    requires i < n <= |records| && records[i].status != 3
    ensures |Cleaned(records[..n])| == SurvivorsBefore(records, n)
    ensures SurvivorsBefore(records, i) < |Cleaned(records[..n])|
    ensures var r, kept := records[i], Cleaned(records[..n])[SurvivorsBefore(records, i)];
      kept.key == r.key && kept.status == r.status && (r.status != 1 ==> kept == r)
    decreases n
  {
    assert records[..n][..n - 1] == records[..n - 1];
    CleanedCount(records, n - 1);
    if i < n - 1 {
      CleanedAt(records, i, n - 1);
    }
  }

  lemma {:induction false} CleanedCount(records: seq<Record>, n: nat)
    requires n <= |records|
    ensures |Cleaned(records[..n])| == SurvivorsBefore(records, n)
  {
    if n > 0 {
      CleanedCount(records, n - 1);
      assert records[..n][..n - 1] == records[..n - 1];
    }
  }

  /**
   Deleting the disabled keys leaves exactly the keys that are not auto-disabled, in order and
   with their status, and those not enabled with their time and reason, if these read back.
   */
  lemma DeleteDisabledDoes(decode: Decoder, row: Row, i: nat)
    requires Consistent(decode, row) && i < |Records(decode, row)| && Records(decode, row)[i].status != 3
    requires DeletesCleanly(decode, row, DeleteDisabledKeys) && Succeeds(decode, row, DeleteDisabledKeys)
    ensures var before, after := Records(decode, row), Records(decode, Act(decode, row, DeleteDisabledKeys));
      var place := SurvivorsBefore(before, i);
      && |after| == SurvivorsBefore(before, |before|) && place < |after|
      && after[place].key == before[i].key && after[place].status == before[i].status
      && (before[i].status != 1 ==> after[place] == before[i])
  {
    hide Act, Records, ReadsBack, Succeeds;
    var before := Records(decode, row);
    ActOnRecords(decode, row, DeleteDisabledKeys);
    CleanedAt(before, i, |before|);
    assert before[..|before|] == before;
  }

  // ---------------------------------------------------------------------- runs

  function Exec(decode: Decoder, row: Row, run: seq<Action>): Row {
    if run == [] then row else Act(decode, Exec(decode, row, run[..|run| - 1]), run[|run| - 1])
  }

  /** In every run an enabled channel has an enabled key, whatever the keys look like. */
  lemma {:induction false} RunKeepsCoherent(decode: Decoder, row: Row, run: seq<Action>)
    requires Coherent(decode, row)
    ensures Coherent(decode, Exec(decode, row, run))
  {
    if run != [] {
      RunKeepsCoherent(decode, row, run[..|run| - 1]);
      ActKeepsCoherent(decode, Exec(decode, row, run[..|run| - 1]), run[|run| - 1]);
    }
  }

  /** No run of key actions switches a channel on or off that is off for another reason. */
  lemma {:induction false} RunKeepsOtherReasons(decode: Decoder, row: Row, run: seq<Action>)
    requires !FollowsKeys(row)
    ensures var r := Exec(decode, row, run); r.status == row.status && r.statusReason == row.statusReason
  {
    if run != [] {
      RunKeepsOtherReasons(decode, row, run[..|run| - 1]);
      ActKeepsOtherReasons(decode, Exec(decode, row, run[..|run| - 1]), run[|run| - 1]);
    }
  }

  ghost predicate CleanRun(decode: Decoder, row: Row, run: seq<Action>) {
    forall n :: 0 <= n < |run| ==> DeletesCleanly(decode, Exec(decode, row, run[..n]), run[n])
  }

  lemma CleanPrefix(decode: Decoder, row: Row, run: seq<Action>)
    requires run != [] && CleanRun(decode, row, run)
    ensures CleanRun(decode, row, run[..|run| - 1])
    ensures DeletesCleanly(decode, Exec(decode, row, run[..|run| - 1]), run[|run| - 1])
  {
    var before := run[..|run| - 1];
    assert forall m :: 0 <= m < |before| ==> before[..m] == run[..m];
  }

  lemma ActKeepsFollowing(decode: Decoder, row: Row, a: Action)
    ensures FollowsKeys(row) ==> FollowsKeys(Act(decode, row, a))
  {
  }

  lemma {:induction false} RunKeepsConsistent(decode: Decoder, row: Row, run: seq<Action>)
    requires Consistent(decode, row)
    ensures Consistent(decode, Exec(decode, row, run))
  {
    if run != [] {
      hide Consistent, Act;
      RunKeepsConsistent(decode, row, run[..|run| - 1]);
      ActKeepsConsistent(decode, Exec(decode, row, run[..|run| - 1]), run[|run| - 1]);
    }
  }

  ghost predicate DoesThroughout(decode: Decoder, row: Row, run: seq<Action>) {
    forall n :: 0 <= n < |run| ==> Does(decode, Exec(decode, row, run[..n]), run[n])
  }

  lemma DoesPrefix(decode: Decoder, row: Row, run: seq<Action>)
    requires run != []
    ensures var before := run[..|run| - 1];
      && (DoesThroughout(decode, row, run) <==>
            DoesThroughout(decode, row, before) && Does(decode, Exec(decode, row, before), run[|run| - 1]))
      && (CleanRun(decode, row, run) <==>
            CleanRun(decode, row, before) && DeletesCleanly(decode, Exec(decode, row, before), run[|run| - 1]))
  {
    hide Does, DeletesCleanly, Exec;
    var before := run[..|run| - 1];
    assert forall m :: 0 <= m < |before| ==> before[..m] == run[..m] && before[m] == run[m];
  }

  /** In every run, all actions do to the keys what they say exactly when all deletions read back. */
  lemma {:induction false} RunDoesExactly(decode: Decoder, row: Row, run: seq<Action>)
    requires Consistent(decode, row)
    ensures DoesThroughout(decode, row, run) <==> CleanRun(decode, row, run)
  {
    if run != [] {
      hide Does, DeletesCleanly, Exec, Consistent, DoesThroughout, CleanRun;
      var before := run[..|run| - 1];
      RunDoesExactly(decode, row, before);
      DoesPrefix(decode, row, run);
      RunKeepsConsistent(decode, row, before);
      ActOnRecords(decode, Exec(decode, row, before), run[|run| - 1]);
    }
  }

  /** No deletion of the run leaves a text that turns into more keys than survive. */
  ghost predicate TrackedRun(decode: Decoder, row: Row, run: seq<Action>) {
    forall n :: 0 <= n < |run| ==> Tracks(decode, Exec(decode, row, run[..n]), run[n])
  }

  predicate Tracks(decode: Decoder, row: Row, a: Action) {
    Deletes(a) && Succeeds(decode, row, a) ==> KeepsTrack(decode, row, a)
  }

  ghost predicate SettledThroughout(decode: Decoder, row: Row, run: seq<Action>) {
    forall n :: 0 <= n <= |run| ==> Settled(decode, Exec(decode, row, run[..n]))
  }

  lemma SettledPrefix(decode: Decoder, row: Row, run: seq<Action>)
    requires run != []
    ensures var before := run[..|run| - 1];
      && (SettledThroughout(decode, row, run) <==>
          SettledThroughout(decode, row, before) && Settled(decode, Exec(decode, row, run)))
      && (TrackedRun(decode, row, run) <==>
            TrackedRun(decode, row, before) && Tracks(decode, Exec(decode, row, before), run[|run| - 1]))
      && (SettledThroughout(decode, row, before) ==> Settled(decode, Exec(decode, row, before)))
  {
    hide Settled, Tracks, Exec;
    var before := run[..|run| - 1];
    assert forall m :: 0 <= m < |before| ==> before[m] == run[m];
    assert forall m :: 0 <= m <= |before| ==> before[..m] == run[..m];
    assert run[..|run|] == run && before[..|before|] == before;
  }

  lemma SettledExactly(decode: Decoder, row: Row, a: Action)
    requires Settled(decode, row) && FollowsKeys(row) && Consistent(decode, row)
    ensures Settled(decode, Act(decode, row, a)) <==> Tracks(decode, row, a)
  {
    hide Settled, KeepsTrack, Consistent, FollowsKeys;
    if !Deletes(a) {
      OthersKeepSettled(decode, row, a);
    } else if Succeeds(decode, row, a) {
      DeletionSettledExactly(decode, row, a);
    }
  }

  /**
   In every run of a channel that follows its keys, it is on exactly when a key is enabled,
   at all times, if and only if every deletion keeps track of its survivors.
   */
  lemma {:induction false} RunSettledExactly(decode: Decoder, row: Row, run: seq<Action>)
    requires Settled(decode, row) && FollowsKeys(row) && Consistent(decode, row)
    ensures FollowsKeys(Exec(decode, row, run))
    ensures SettledThroughout(decode, row, run) <==> TrackedRun(decode, row, run)
  {
    if run != [] {
      hide Settled, FollowsKeys, Consistent, Tracks, SettledThroughout, TrackedRun, Act;
      var before, a := run[..|run| - 1], run[|run| - 1];
      RunSettledExactly(decode, row, before);
      SettledPrefix(decode, row, run);
      RunKeepsConsistent(decode, row, before);
      ActKeepsFollowing(decode, Exec(decode, row, before), a);
      if SettledThroughout(decode, row, before) {
        SettledExactly(decode, Exec(decode, row, before), a);
      }
    }
  }

  /** The list of records after a run: what the actions that go through do to it, one by one. */
  function RunRecords(decode: Decoder, row: Row, run: seq<Action>): seq<Record> {
    if run == [] then Records(decode, row)
    else
      var before := run[..|run| - 1];
      if Succeeds(decode, Exec(decode, row, before), run[|run| - 1])
      then RecordsAfter(RunRecords(decode, row, before), run[|run| - 1])
      else RunRecords(decode, row, before)
  }

  /**
   In every run whose deletions read back, a channel that follows its keys is on exactly
   when a key is enabled, and the keys with their records are as the actions left them.
   */
  lemma {:induction false} RunKeepsSettled(decode: Decoder, row: Row, run: seq<Action>)
    requires Settled(decode, row) && Consistent(decode, row) && CleanRun(decode, row, run)
    ensures Settled(decode, Exec(decode, row, run)) && Consistent(decode, Exec(decode, row, run))
    ensures FollowsKeys(row) ==> FollowsKeys(Exec(decode, row, run))
    ensures Records(decode, Exec(decode, row, run)) == RunRecords(decode, row, run)
  {
    if run != [] {
      var before, a := run[..|run| - 1], run[|run| - 1];
      CleanPrefix(decode, row, run);
      RunKeepsSettled(decode, row, before);
      ActKeepsSettled(decode, Exec(decode, row, before), a);
      ActKeepsFollowing(decode, Exec(decode, row, before), a);
      ActOnRecords(decode, Exec(decode, row, before), a);
    }
  }
}
