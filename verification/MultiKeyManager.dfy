/**
 The key-management actions as they run: on the fields of a loaded channel, with loops
 that rebuild the position-keyed maps, followed by saving the row. Every method is
 proved to do what `MultiKeyChannel.Act` says.
 */
module MultiKeyManager {
  import opened Text
  import opened MultiKeyChannel
  import opened Wrappers

  lemma RecordsAt(decode: Decoder, row: Row)
    ensures var keys, records := GetKeys(decode, row.keyText), Records(decode, row);
      && |records| == |keys|
      && forall i :: 0 <= i < |keys| ==>
           && records[i].key == keys[i] && records[i].status == StatusAt(row.keyStatus, i)
           && records[i].time == Lookup(row.disabledTime, i) && records[i].reason == Lookup(row.disabledReason, i)
  {
  }

  lemma NoRecords()
    ensures Cleaned([]) == [] && KeysOf([]) == []
    ensures StatusMap([]) == map[] && TimeMap([]) == map[] && ReasonMap([]) == map[]
  {
  }

  lemma MapsAppended(kept: seq<Record>, r: Record)
    ensures KeysOf(kept + [r]) == KeysOf(kept) + [r.key]
    ensures StatusMap(kept + [r])
         == if r.status != ENABLED then StatusMap(kept)[|kept| := r.status] else StatusMap(kept)
    ensures TimeMap(kept + [r]) == if r.time.Some? then TimeMap(kept)[|kept| := r.time.value] else TimeMap(kept)
    ensures ReasonMap(kept + [r])
         == if r.reason.Some? then ReasonMap(kept)[|kept| := r.reason.value] else ReasonMap(kept)
  {
  }

  lemma RemoveAtGrows(records: seq<Record>, index: int, i: nat)
    requires i < |records|
    ensures RemoveAt(records[..i + 1], index)
         == if i == index then RemoveAt(records[..i], index) else RemoveAt(records[..i], index) + [records[i]]
  {
  }

  lemma CleanedGrows(records: seq<Record>, i: nat)
    requires i < |records|
    ensures Cleaned(records[..i + 1]) == var r := records[i];
      if r.status == AUTO_DISABLED then Cleaned(records[..i])
      else if r.status == ENABLED then Cleaned(records[..i]) + [r.(time := None, reason := None)]
      else Cleaned(records[..i]) + [r]
  {
    assert records[..i + 1][..i] == records[..i];
  }

  lemma NothingDisabled(status: map<int, int>, n: int)
    requires n <= 0
    ensures DisabledBelow(status, n) == status
  {
  }

  lemma DisabledBelowGrows(status: map<int, int>, i: nat)
    ensures StatusAt(status, i) == ENABLED <==>
      i !in DisabledBelow(status, i) || DisabledBelow(status, i)[i] == ENABLED
    ensures DisabledBelow(status, i + 1) ==
      if StatusAt(status, i) == ENABLED
      then DisabledBelow(status, i)[i := MANUALLY_DISABLED] else DisabledBelow(status, i)
  {
  }

  class Channel {
    const decode: Decoder
    var keyText: string
    var size: int
    var status: int
    var statusReason: string
    var keyStatus: map<int, int>
    var disabledTime: map<int, int>
    var disabledReason: map<int, string>

    function Row(): MultiKeyChannel.Row
      reads this
    {
      MultiKeyChannel.Row(keyText, size, status, statusReason, keyStatus, disabledTime, disabledReason)
    }

    constructor (decode: Decoder, row: MultiKeyChannel.Row)
      ensures this.decode == decode && Row() == row
    {
      this.decode := decode;
      keyText, size, status, statusReason := row.keyText, row.size, row.status, row.statusReason;
      keyStatus, disabledTime, disabledReason := row.keyStatus, row.disabledTime, row.disabledReason;
    }

    method HasEnabledMultiKey() returns (has: bool)
      ensures has == Available(decode, Row())
      ensures has <==> exists i ::
        0 <= i < |GetKeys(decode, keyText)| && (i !in keyStatus || keyStatus[i] == 1)
    {
      var keys := GetKeys(decode, keyText);
      for i := 0 to |keys|
        invariant forall j :: 0 <= j < i ==> j in keyStatus && keyStatus[j] != ENABLED
      {
        if i !in keyStatus || keyStatus[i] == ENABLED {
          assert StatusAt(keyStatus, i) == ENABLED;
          return true;
        }
      }
      return false;
    }

    /** Returns whether no key is left, so that open connections are to be closed. */
    method DisableIfUnavailable() returns (close: bool)
      modifies this`status, this`statusReason
      ensures Row() == MultiKeyChannel.DisableIfUnavailable(decode, old(Row()))
      ensures close == !Available(decode, old(Row())) == !Available(decode, Row())
      ensures if close && old(status) == 1 then status == 2 && statusReason == "All keys are disabled"
              else status == old(status) && statusReason == old(statusReason)
    {
      var has := HasEnabledMultiKey();
      if has {
        return false;
      }
      if status != ENABLED {
        return true;
      }
      status, statusReason := MANUALLY_DISABLED, ALL_KEYS_DISABLED;
      return true;
    }

    method RestoreIfAvailable()
      modifies this`status, this`statusReason
      ensures Row() == MultiKeyChannel.RestoreIfAvailable(decode, old(Row()))
      ensures if old(status) == 2 && old(statusReason) == "All keys are disabled" && Available(decode, old(Row()))
              then status == 1 && statusReason == "" else status == old(status) && statusReason == old(statusReason)
    {
      var has := HasEnabledMultiKey();
      if status != MANUALLY_DISABLED || !has || statusReason != ALL_KEYS_DISABLED {
        return;
      }
      status, statusReason := ENABLED, "";
    }

    /** Saves the row and reads it back; `stored` is the key text saved before. */
    method Update(stored: string)
      modifies this`keyText, this`size, this`keyStatus
      ensures Row() == MultiKeyChannel.Update(decode, stored, old(Row()))
      ensures keyText == if old(keyText) == "" then stored else old(keyText)
      ensures GetKeys(decode, keyText) != [] ==> size == |GetKeys(decode, keyText)|
      ensures forall i :: i in keyStatus <==> i in old(keyStatus) && i < size
      ensures forall i :: i in keyStatus ==> keyStatus[i] == old(keyStatus)[i]
    {
      if keyText == "" {
        keyText := stored;
      }
      size := CountKeys(decode, keyText);
      keyStatus := map i | i in keyStatus && i < size :: keyStatus[i];
    }

    method DisableKey(index: Option<int>) returns (ok: bool, close: bool)
      modifies this
      ensures ok == Succeeds(decode, old(Row()), MultiKeyChannel.DisableKey(index))
      ensures ok <==> index.Some? && 0 <= index.value < old(size)
      ensures Row() == Act(decode, old(Row()), MultiKeyChannel.DisableKey(index))
      ensures close <==> ok && !Available(decode, Changed(decode, old(Row()), MultiKeyChannel.DisableKey(index)))
    {
      if index.None? || index.value < 0 || index.value >= size {
        return false, false;
      }
      var stored := keyText;
      keyStatus := keyStatus[index.value := MANUALLY_DISABLED];
      close := DisableIfUnavailable();
      Update(stored);
      return true, close;
    }

    method EnableKey(index: Option<int>) returns (ok: bool)
      modifies this
      ensures ok == Succeeds(decode, old(Row()), MultiKeyChannel.EnableKey(index))
      ensures ok <==> index.Some? && 0 <= index.value < old(size)
      ensures Row() == Act(decode, old(Row()), MultiKeyChannel.EnableKey(index))
    {
      if index.None? || index.value < 0 || index.value >= size {
        return false;
      }
      var stored := keyText;
      keyStatus := keyStatus - {index.value};
      disabledTime := disabledTime - {index.value};
      disabledReason := disabledReason - {index.value};
      RestoreIfAvailable();
      Update(stored);
      return true;
    }

    method EnableAllKeys() returns (ok: bool, enabledCount: nat)
      modifies this
      ensures ok == Succeeds(decode, old(Row()), MultiKeyChannel.EnableAllKeys) && enabledCount == |old(keyStatus)|
      ensures Row() == Act(decode, old(Row()), MultiKeyChannel.EnableAllKeys)
    {
      var stored := keyText;
      enabledCount := |keyStatus|;
      keyStatus, disabledTime, disabledReason := map[], map[], map[];
      RestoreIfAvailable();
      Update(stored);
      return true, enabledCount;
    }

    /** Marks every enabled key as manually disabled, and counts them. */
    method DisabledStatuses() returns (statuses: map<int, int>, disabledCount: nat)
      ensures statuses == AllDisabled(Row())
      ensures disabledCount == EnabledBelow(keyStatus, size)
      ensures disabledCount > 0 <==> Succeeds(decode, Row(), MultiKeyChannel.DisableAllKeys)
    {
      hide DisabledBelow, StatusAt;
      statuses, disabledCount := keyStatus, 0;
      NothingDisabled(keyStatus, 0);
      if size < 0 {
        NothingDisabled(keyStatus, size);
      }
      var i := 0;
      while i < size
        invariant i <= size || i == 0
        invariant statuses == DisabledBelow(keyStatus, i)
        invariant disabledCount == EnabledBelow(keyStatus, i)
        invariant disabledCount > 0 <==> exists j :: 0 <= j < i && StatusAt(keyStatus, j) == ENABLED
      {
        DisabledBelowGrows(keyStatus, i);
        if i !in statuses || statuses[i] == ENABLED {
          statuses := statuses[i := MANUALLY_DISABLED];
          disabledCount := disabledCount + 1;
        }
        i := i + 1;
      }
    }

    method DisableAllKeys() returns (ok: bool, disabledCount: nat, close: bool)
      modifies this
      ensures ok == Succeeds(decode, old(Row()), MultiKeyChannel.DisableAllKeys)
      ensures Row() == Act(decode, old(Row()), MultiKeyChannel.DisableAllKeys)
      ensures disabledCount == EnabledBelow(old(keyStatus), old(size))
      ensures close <==> ok && !Available(decode, Changed(decode, old(Row()), MultiKeyChannel.DisableAllKeys))
    {
      var statuses;
      statuses, disabledCount := DisabledStatuses();
      if disabledCount == 0 {
        return false, disabledCount, false;
      }
      var stored := keyText;
      keyStatus := statuses;
      close := DisableIfUnavailable();
      Update(stored);
      return true, disabledCount, close;
    }

    /** Rebuilds the key list and the maps without one key. */
    method RebuildWithout(index: int)
      returns (remaining: seq<string>, newStatus: map<int, int>, newTime: map<int, int>, newReason: map<int, string>)
      ensures var kept := RemoveAt(Records(decode, Row()), index);
        && remaining == KeysOf(kept) && newStatus == StatusMap(kept)
        && newTime == TimeMap(kept) && newReason == ReasonMap(kept)
    {
      hide KeysOf, StatusMap, TimeMap, ReasonMap, GetKeys;
      var keys := GetKeys(decode, keyText);
      ghost var records, kept := Records(decode, Row()), [];
      NoRecords();
      var newIndex := 0;
      remaining, newStatus, newTime, newReason := [], map[], map[], map[];
      for i := 0 to |keys|
        invariant kept == RemoveAt(records[..i], index) && newIndex == |kept| && remaining == KeysOf(kept)
        invariant newStatus == StatusMap(kept) && newTime == TimeMap(kept) && newReason == ReasonMap(kept)
      {
        RemoveAtGrows(records, index, i);
        if i == index {
          continue;
        }
        MapsAppended(kept, records[i]);
        kept := kept + [records[i]];
        remaining := remaining + [keys[i]];
        if i in keyStatus && keyStatus[i] != ENABLED {
          newStatus := newStatus[newIndex := keyStatus[i]];
        }
        if i in disabledTime {
          newTime := newTime[newIndex := disabledTime[i]];
        }
        if i in disabledReason {
          newReason := newReason[newIndex := disabledReason[i]];
        }
        newIndex := newIndex + 1;
      }
      assert records[..|keys|] == records;
    }

    /** Rebuilds the key list and the maps without the auto-disabled keys. */
    method RebuildCleaned()
      returns (remaining: seq<string>, deletedCount: nat,
               newStatus: map<int, int>, newTime: map<int, int>, newReason: map<int, string>)
      ensures var kept := Cleaned(Records(decode, Row()));
        && remaining == KeysOf(kept) && newStatus == StatusMap(kept)
        && newTime == TimeMap(kept) && newReason == ReasonMap(kept)
      ensures deletedCount == |Records(decode, Row())| - |Cleaned(Records(decode, Row()))|
    {
      hide KeysOf, StatusMap, TimeMap, ReasonMap, GetKeys, Records, Cleaned;
      var keys := GetKeys(decode, keyText);
      ghost var records, kept := Records(decode, Row()), [];
      NoRecords();
      RecordsAt(decode, Row());
      var newIndex := 0;
      remaining, deletedCount := [], 0;
      newStatus, newTime, newReason := map[], map[], map[];
      for i := 0 to |keys|
        invariant kept == Cleaned(records[..i]) && newIndex == |kept| == i - deletedCount && remaining == KeysOf(kept)
        invariant newStatus == StatusMap(kept) && newTime == TimeMap(kept) && newReason == ReasonMap(kept)
      {
        CleanedGrows(records, i);
        var s := if i in keyStatus then keyStatus[i] else ENABLED;
        if s == AUTO_DISABLED {
          deletedCount := deletedCount + 1;
        } else {
          ghost var r := if s == ENABLED then records[i].(time := None, reason := None) else records[i];
          MapsAppended(kept, r);
          kept := kept + [r];
          remaining := remaining + [keys[i]];
          if s != ENABLED {
            newStatus := newStatus[newIndex := s];
            if i in disabledTime {
              newTime := newTime[newIndex := disabledTime[i]];
            }
            if i in disabledReason {
              newReason := newReason[newIndex := disabledReason[i]];
            }
          }
          newIndex := newIndex + 1;
        }
      }
      assert records[..|keys|] == records;
    }

    method DeleteKey(index: Option<int>) returns (ok: bool, close: bool)
      modifies this
      ensures ok == Succeeds(decode, old(Row()), MultiKeyChannel.DeleteKey(index))
      ensures Row() == Act(decode, old(Row()), MultiKeyChannel.DeleteKey(index))
      ensures close <==> ok && !Available(decode, Changed(decode, old(Row()), MultiKeyChannel.DeleteKey(index)))
    {
      if index.None? || index.value < 0 || index.value >= size {
        return false, false;
      }
      var remaining, newStatus, newTime, newReason := RebuildWithout(index.value);
      if |remaining| == 0 {
        return false, false;
      }
      close := Store(remaining, newStatus, newTime, newReason);
      return true, close;
    }

    method DeleteDisabledKeys() returns (ok: bool, deletedCount: nat, close: bool)
      modifies this
      ensures ok == Succeeds(decode, old(Row()), MultiKeyChannel.DeleteDisabledKeys)
      ensures Row() == Act(decode, old(Row()), MultiKeyChannel.DeleteDisabledKeys)
      ensures deletedCount == |Records(decode, old(Row()))| - |Cleaned(Records(decode, old(Row())))|
      ensures close <==> ok && !Available(decode, Changed(decode, old(Row()), MultiKeyChannel.DeleteDisabledKeys))
    {
      var remaining, newStatus, newTime, newReason;
      remaining, deletedCount, newStatus, newTime, newReason := RebuildCleaned();
      if deletedCount == 0 {
        return false, deletedCount, false;
      }
      close := Store(remaining, newStatus, newTime, newReason);
      return true, deletedCount, close;
    }

    /** The row with a new key list and new maps. */
    ghost function Rebuilt(
      remaining: seq<string>, newStatus: map<int, int>, newTime: map<int, int>, newReason: map<int, string>)
      : MultiKeyChannel.Row
      reads this
    {
      Row().(keyText := Join(remaining, NEWLINE), size := |remaining|,
             keyStatus := newStatus, disabledTime := newTime, disabledReason := newReason)
    }

    /** The common end of both deletions. */
    method Store(remaining: seq<string>, newStatus: map<int, int>, newTime: map<int, int>, newReason: map<int, string>)
      returns (close: bool)
      modifies this
      ensures var rebuilt := old(Rebuilt(remaining, newStatus, newTime, newReason));
        var changed := MultiKeyChannel.DisableIfUnavailable(decode, rebuilt);
        Row() == MultiKeyChannel.Update(decode, old(keyText), changed) && close == !Available(decode, changed)
    {
      var stored := keyText;
      keyText, size := Join(remaining, NEWLINE), |remaining|;
      keyStatus, disabledTime, disabledReason := newStatus, newTime, newReason;
      close := DisableIfUnavailable();
      Update(stored);
    }
  }
}
