/**
 Checking a channel against its upstream and applying the found changes, as they run: on
 the fields of a loaded channel, with lists and sets built in loops.
 */
module UpstreamSync {
  import opened Text
  import opened UpstreamModels
  import opened Wrappers

  lemma MergeGrows(base: seq<string>, appended: seq<string>, i: nat)
    requires i < |appended|
    ensures Normalize(base + appended[..i + 1])
         == var rest := Normalize(base + appended[..i]); var name := TrimSpace(appended[i]);
            if name == "" || name in rest then rest else rest + [name]
  {
    assert (base + appended[..i + 1])[..|base| + i] == base + appended[..i];
  }

  /** Appends the names that are not there yet. */
  method MergeModelNames(base: seq<string>, appended: seq<string>) returns (merged: seq<string>)
    ensures merged == Merge(base, appended)
  {
    merged := Normalize(base);
    var seen := set name | name in merged;
    var names := Normalize(appended);
    NormalizeIsCanonical(appended);
    assert base + names[..0] == base;
    for i := 0 to |names|
      invariant merged == Normalize(base + names[..i])
      invariant seen == set name | name in merged
    {
      MergeGrows(base, names, i);
      if names[i] in seen {
        continue;
      }
      seen := seen + {names[i]};
      merged := merged + [names[i]];
    }
    assert names[..|names|] == names;
    NormalizeBack(base, appended);
  }

  lemma StillMentioned(base: seq<string>, appended: seq<string>, name: string)
    requires name in Normalize(appended)
    ensures name in Normalize(base + appended)
  {
    MergeMembers(base, appended);
  }

  /** One more name, whether it is appended before or after normalising. */
  lemma NormalizeBackStep(base: seq<string>, front: seq<string>, name: string)
    requires Normalize(base + Normalize(front)) == Normalize(base + front) && TrimSpace(name) == name
    ensures name == "" || name in Normalize(front) ==> Normalize(base + (front + [name])) == Normalize(base + front)
    ensures Normalize(base + (Normalize(front) + [name])) == Normalize(base + (front + [name]))
  {
    hide Normalize, TrimSpace;
    var rest := Normalize(front);
    NormalizeTrimmed(base + front, name);
    NormalizeTrimmed(base + rest, name);
    assert base + (front + [name]) == (base + front) + [name];
    assert base + (rest + [name]) == (base + rest) + [name];
    if name in rest {
      StillMentioned(base, front, name);
    }
  }

  lemma NormalizeTrimmed(s: seq<string>, last: string)
    ensures Normalize(s + [last]) == Normalize(s + [TrimSpace(last)])
         == var rest, name := Normalize(s), TrimSpace(last); if name == "" || name in rest then rest else rest + [name]
  {
    TrimSpaceTwice(last);
    assert (s + [last])[..|s|] == s && (s + [TrimSpace(last)])[..|s|] == s;
  }

  /** Normalising the appended part first changes nothing. */
  lemma {:induction false} NormalizeBack(base: seq<string>, appended: seq<string>)
    ensures Normalize(base + Normalize(appended)) == Normalize(base + appended)
  {
    hide Normalize, TrimSpace;
    if appended == [] {
      assert Normalize(appended) == [] by { NormalizeNothing(); }
    } else {
      var front, last := appended[..|appended| - 1], appended[|appended| - 1];
      NormalizeBack(base, front);
      TrimSpaceTwice(last);
      NormalizeBackStep(base, front, TrimSpace(last));
      NormalizeTrimmed(front, last);
      NormalizeTrimmed(base + front, last);
      assert appended == front + [last];
      assert base + appended == (base + front) + [last];
      assert base + (front + [TrimSpace(last)]) == (base + front) + [TrimSpace(last)];
    }
  }

  lemma NormalizeNothing()
    ensures Normalize([]) == []
  {
  }

  /** The pending changes, with the sets that the loops over the lists build. */
  method CollectPending(local: seq<string>, upstream: seq<string>, rules: Rules)
    returns (add: seq<string>, remove: seq<string>)
    ensures add == PendingAdd(local, upstream, rules)
    ensures remove == PendingRemove(local, upstream, rules)
    ensures forall name :: name in add <==>
      && name != "" && Mentions(upstream, name) && !Mentions(local, name)
      && !(exists source :: source in rules.mapping && rules.mapping[source] == name)
      && !(exists rule :: rule != "" && Mentions(rules.ignored, rule) && Hides(rules.matches, rule, name))
    ensures forall name :: name in remove <==>
      name != "" && Mentions(local, name) && name !in rules.mapping && !Mentions(upstream, name)
  {
    hide Mentions, Hides;
    var localModels, upstreamModels := Normalize(local), Normalize(upstream);
    var ignored := Normalize(rules.ignored);
    var covered := (set name | name in localModels) + rules.mapping.Values;
    add := [];
    for i := 0 to |upstreamModels|
      invariant add == Filter(upstreamModels[..i], name => Wanted(local, rules, name))
    {
      FilterGrows(upstreamModels, name => Wanted(local, rules, name), i);
      var name := upstreamModels[i];
      if name !in covered && !Ignored(rules.matches, ignored, name) {
        add := add + [name];
      }
    }
    assert upstreamModels[..|upstreamModels|] == upstreamModels;
    remove := [];
    for i := 0 to |localModels|
      invariant remove == Filter(localModels[..i], name => Gone(upstream, rules, name))
    {
      FilterGrows(localModels, name => Gone(upstream, rules, name), i);
      var name := localModels[i];
      if name !in rules.mapping.Keys && name !in upstreamModels {
        remove := remove + [name];
      }
    }
    assert localModels[..|localModels|] == localModels;
    forall name
      ensures name in add <==>
        && name != "" && Mentions(upstream, name) && !Mentions(local, name)
        && !(exists source :: source in rules.mapping && rules.mapping[source] == name)
        && !(exists rule :: rule != "" && Mentions(rules.ignored, rule) && Hides(rules.matches, rule, name))
      ensures name in remove <==>
        name != "" && Mentions(local, name) && name !in rules.mapping && !Mentions(upstream, name)
    {
      PendingExactly(local, upstream, rules, name);
    }
  }

  lemma FilterGrows(s: seq<string>, p: string -> bool, i: nat)
    requires i < |s|
    ensures Filter(s[..i + 1], p) == if p(s[i]) then Filter(s[..i], p) + [s[i]] else Filter(s[..i], p)
  {
    assert s[..i + 1][..i] == s[..i];
  }

  class SyncedChannel {
    var models: string
    var settings: Settings

    function Value(): Channel
      reads this
    {
      Channel(models, settings)
    }

    constructor (ch: Channel)
      ensures Value() == ch
    {
      models, settings := ch.models, ch.settings;
    }

    /**
     One check. `fetched` is the upstream list, or none if it could not be fetched; a check
     that is not forced is skipped when the last one was less than `minInterval` ago.
     */
    method Check(fetched: Option<seq<string>>, mapping: map<string, string>, matches: (string, string) -> bool,
                 now: int, minInterval: int, force: bool, allowAuto: bool)
      returns (changed: bool, autoAdded: nat)
      modifies this
      ensures var before := old(Value());
        if !force && before.settings.lastCheck > 0 && now - before.settings.lastCheck < minInterval then
          Value() == before && !changed && autoAdded == 0
        else if fetched.None? then
          Value() == before.(settings := before.settings.(lastCheck := now)) && !changed && autoAdded == 0
        else
          var add := PendingAdd(GetModels(before), fetched.value, RulesOf(before, mapping, matches));
          && Value() == Detect(before, fetched.value, mapping, matches, allowAuto, now)
          && autoAdded == (if AutoApplies(before, add, allowAuto) then |add| else 0)
          && changed == (autoAdded > 0)
    {
      changed, autoAdded := false, 0;
      if !force && settings.lastCheck > 0 && now - settings.lastCheck < minInterval {
        return;
      }
      if fetched.None? {
        settings := settings.(lastCheck := now);
        return;
      }
      var rules := RulesOf(Value(), mapping, matches);
      var add, remove := CollectPending(GetModels(Value()), fetched.value, rules);
      AutoSyncCount(Value(), fetched.value, rules);
      if allowAuto && settings.autoSync && |add| > 0 {
        var origin := Normalize(GetModels(Value()));
        var merged := MergeModelNames(origin, add);
        if |merged| > |origin| {
          models := Join(merged, COMMA);
          autoAdded := |merged| - |origin|;
          changed := true;
        }
        settings := settings.(detected := []);
      } else {
        settings := settings.(detected := add);
      }
      settings := settings.(removed := remove, lastCheck := now);
    }

    /** Applies the part of a selection that is pending. */
    method ApplyUpdates(input: Selection, now: int)
      returns (added: seq<string>, removed: seq<string>,
               remaining: seq<string>, remainingRemove: seq<string>, changed: bool)
      modifies this
      ensures Value() == Apply(old(Value()), input, now)
      ensures var sel := Effective(old(Value()), input); added == sel.add && removed == sel.remove
      ensures remaining == settings.detected && remainingRemove == settings.removed
      ensures changed == (NextModels(old(Value()), input) != Normalize(GetModels(old(Value()))))
    {
      var pendingAdd, pendingRemove := Normalize(settings.detected), Normalize(settings.removed);
      added := Intersect(input.add, pendingAdd);
      var ignore := Intersect(input.ignore, pendingAdd);
      removed := Subtract(Intersect(input.remove, pendingRemove), added);
      var origin := Normalize(GetModels(Value()));
      var next := ApplySelected(origin, added, removed);
      changed := origin != next;
      if changed {
        models := Join(next, COMMA);
      }
      var ignored := MergeModelNames(settings.ignored, ignore);
      if |added| > 0 {
        ignored := Subtract(ignored, added);
      }
      remaining := Subtract(pendingAdd, added + ignore);
      remainingRemove := Subtract(pendingRemove, removed);
      settings := settings.(ignored := ignored, detected := remaining, removed := remainingRemove, lastCheck := now);
    }
  }

}
