/**
 Keeping a channel's model list in step with its upstream: detecting which upstream
 models are missing locally and which local ones are gone upstream, and applying a
 selection of these changes. Model lists are normalised (trimmed, non-empty, distinct)
 and stored as one comma-separated text.
 */
module UpstreamModels {
  import opened Text

  const COMMA := ','
  const REGEX_PREFIX := "regex:"

  // --------------------------------------------------------------- list algebra

  function Normalize(models: seq<string>): seq<string> {
    if models == [] then []
    else
      var rest := Normalize(models[..|models| - 1]);
      var name := TrimSpace(models[|models| - 1]);
      if name == "" || name in rest then rest else rest + [name]
  }

  function Filter(s: seq<string>, p: string -> bool): seq<string> {
    if s == [] then []
    else
      var rest := Filter(s[..|s| - 1], p);
      if p(s[|s| - 1]) then rest + [s[|s| - 1]] else rest
  }

  function Merge(base: seq<string>, appended: seq<string>): seq<string> {
    Normalize(base + appended)
  }

  function Subtract(base: seq<string>, removed: seq<string>): seq<string> {
    Filter(Normalize(base), name => name !in Normalize(removed))
  }

  function Intersect(base: seq<string>, allowed: seq<string>): seq<string> {
    Filter(Normalize(base), name => name in Normalize(allowed))
  }

  /** Adding wins over removing the same model. */
  function ApplySelected(origin: seq<string>, add: seq<string>, remove: seq<string>): seq<string> {
    Subtract(Merge(origin, Normalize(add)), Subtract(Normalize(remove), Normalize(add)))
  }

  ghost predicate Distinct(s: seq<string>) {
    forall i, j :: 0 <= i < j < |s| ==> s[i] != s[j]
  }

  /** Already normalised: trimmed, non-empty and distinct. */
  ghost predicate Canonical(s: seq<string>) {
    Distinct(s) && forall i :: 0 <= i < |s| ==> s[i] != "" && TrimSpace(s[i]) == s[i]
  }

  ghost predicate Mentions(models: seq<string>, name: string) {
    exists i :: 0 <= i < |models| && TrimSpace(models[i]) == name
  }

  /** Normalising keeps exactly the trimmed non-empty names. */
  lemma {:induction false} NormalizeIsCanonical(models: seq<string>)
    ensures Canonical(Normalize(models))
    ensures forall name :: name in Normalize(models) <==> name != "" && Mentions(models, name)
  {
    if models != [] {
      var front := models[..|models| - 1];
      NormalizeIsCanonical(front);
      TrimSpaceTwice(models[|models| - 1]);
      forall name ensures Mentions(models, name) <==> Mentions(front, name) || name == TrimSpace(models[|models| - 1]) {
        MentionsLast(models, name);
      }
    }
  }

  lemma MentionsLast(models: seq<string>, name: string)
    requires models != []
    ensures Mentions(models, name) <==>
      Mentions(models[..|models| - 1], name) || name == TrimSpace(models[|models| - 1])
  {
    var front := models[..|models| - 1];
    if Mentions(front, name) {
      var i :| 0 <= i < |front| && TrimSpace(front[i]) == name;
      assert TrimSpace(models[i]) == name;
    }
    if Mentions(models, name) {
      var i :| 0 <= i < |models| && TrimSpace(models[i]) == name;
      assert i < |front| ==> TrimSpace(front[i]) == name;
    }
  }

  /** Canonical lists are left alone, so normalising twice is normalising once. */
  lemma {:induction false} NormalizeCanonical(s: seq<string>)
    requires Canonical(s)
    ensures Normalize(s) == s
  {
    if s != [] {
      var front := s[..|s| - 1];
      NormalizeCanonical(front);
      assert s[|s| - 1] !in front;
      assert s == front + [s[|s| - 1]];
    }
  }

  /** The front of a normalised list is the normalised front. */
  lemma {:induction false} NormalizePrefix(a: seq<string>, b: seq<string>)
    ensures Normalize(a) <= Normalize(a + b)
  {
    if b == [] {
      assert a + b == a;
    } else {
      NormalizePrefix(a, b[..|b| - 1]);
      assert (a + b)[..|a + b| - 1] == a + b[..|b| - 1];
    }
  }

  lemma {:induction false} FilterIs(s: seq<string>, p: string -> bool)
    ensures forall name :: name in Filter(s, p) <==> name in s && p(name)
  {
    if s != [] {
      FilterIs(s[..|s| - 1], p);
      assert s == s[..|s| - 1] + [s[|s| - 1]];
    }
  }

  lemma {:induction false} FilterCanonical(s: seq<string>, p: string -> bool)
    requires Canonical(s)
    ensures Canonical(Filter(s, p))
  {
    hide TrimSpace;
    if s != [] {
      var front := s[..|s| - 1];
      FilterCanonical(front, p);
      FilterIs(front, p);
      assert s[|s| - 1] !in front;
    }
  }

  lemma {:induction false} FilterAll(s: seq<string>, p: string -> bool)
    requires forall name :: name in s ==> p(name)
    ensures Filter(s, p) == s
  {
    if s != [] {
      FilterAll(s[..|s| - 1], p);
      assert s == s[..|s| - 1] + [s[|s| - 1]];
    }
  }

  lemma FilterMembers(s: seq<string>, p: string -> bool)
    ensures forall name :: name in Filter(s, p) <==> name in s && p(name)
    ensures Canonical(s) ==> Canonical(Filter(s, p))
    ensures (forall name :: name in s ==> p(name)) ==> Filter(s, p) == s
  {
    hide Canonical;
    FilterIs(s, p);
    if Canonical(s) {
      FilterCanonical(s, p);
    }
    if forall name :: name in s ==> p(name) {
      FilterAll(s, p);
    }
  }

  lemma MergeMembers(a: seq<string>, b: seq<string>)
    ensures Canonical(Merge(a, b))
    ensures forall name :: name in Merge(a, b) <==> name in Normalize(a) || name in Normalize(b)
  {
    NormalizeIsCanonical(a);
    NormalizeIsCanonical(b);
    NormalizeIsCanonical(a + b);
    forall name ensures Mentions(a + b, name) <==> Mentions(a, name) || Mentions(b, name) {
      MentionsEither(a, b, name);
    }
  }

  lemma MentionsEither(a: seq<string>, b: seq<string>, name: string)
    ensures Mentions(a + b, name) <==> Mentions(a, name) || Mentions(b, name)
  {
    if Mentions(a, name) {
      var i :| 0 <= i < |a| && TrimSpace(a[i]) == name;
      assert TrimSpace((a + b)[i]) == name;
    }
    if Mentions(b, name) {
      var i :| 0 <= i < |b| && TrimSpace(b[i]) == name;
      assert TrimSpace((a + b)[|a| + i]) == name;
    }
    if Mentions(a + b, name) {
      var i :| 0 <= i < |a + b| && TrimSpace((a + b)[i]) == name;
      assert if i < |a| then TrimSpace(a[i]) == name else TrimSpace(b[i - |a|]) == name;
    }
  }

  lemma SubtractMembers(a: seq<string>, b: seq<string>)
    ensures Canonical(Subtract(a, b))
    ensures forall name :: name in Subtract(a, b) <==> name in Normalize(a) && name !in Normalize(b)
  {
    NormalizeIsCanonical(a);
    FilterMembers(Normalize(a), name => name !in Normalize(b));
  }

  lemma IntersectMembers(a: seq<string>, b: seq<string>)
    ensures Canonical(Intersect(a, b))
    ensures forall name :: name in Intersect(a, b) <==> name in Normalize(a) && name in Normalize(b)
  {
    NormalizeIsCanonical(a);
    FilterMembers(Normalize(a), name => name in Normalize(b));
  }

  /** What a selection does to the model set. */
  lemma ApplySelectedMembers(origin: seq<string>, add: seq<string>, remove: seq<string>)
    ensures Canonical(ApplySelected(origin, add, remove))
    ensures forall name :: name in ApplySelected(origin, add, remove) <==>
      name in Normalize(add) || (name in Normalize(origin) && name !in Normalize(remove))
  {
    NormalizeIsCanonical(add);
    NormalizeIsCanonical(remove);
    NormalizeCanonical(Normalize(add));
    NormalizeCanonical(Normalize(remove));
    var merged := Merge(origin, Normalize(add));
    var gone := Subtract(Normalize(remove), Normalize(add));
    MergeMembers(origin, Normalize(add));
    NormalizeCanonical(merged);
    SubtractMembers(Normalize(remove), Normalize(add));
    NormalizeCanonical(gone);
    SubtractMembers(merged, gone);
  }

  /** The result differs from the models before exactly when the set of models does. */
  lemma ChangedExactly(origin: seq<string>, add: seq<string>, remove: seq<string>)
    requires Canonical(origin)
    ensures ApplySelected(origin, add, remove) == origin <==>
      forall name :: name in ApplySelected(origin, add, remove) <==> name in origin
  {
    var next := ApplySelected(origin, add, remove);
    ApplySelectedMembers(origin, add, remove);
    NormalizeCanonical(origin);
    if forall name :: name in next <==> name in origin {
      NormalizeIsCanonical(add);
      NormalizeCanonical(Normalize(add));
      NormalizePrefix(origin, Normalize(add));
      var merged := Merge(origin, Normalize(add));
      MergeMembers(origin, Normalize(add));
      SameMembers(origin, merged);
      var gone := Subtract(Normalize(remove), Normalize(add));
      SubtractMembers(merged, gone);
      FilterMembers(Normalize(merged), name => name !in Normalize(gone));
      NormalizeCanonical(merged);
      assert forall name :: name in merged ==> name !in Normalize(gone);
    }
  }

  lemma NextIsNew(a: seq<string>, b: seq<string>)
    requires a <= b && Distinct(b)
    ensures |a| < |b| ==> b[|a|] in b && b[|a|] !in a
  {
  }

  /** A distinct list does not grow without a new name. */
  lemma SameMembers(a: seq<string>, b: seq<string>)
    requires a <= b && Distinct(b) && forall name :: name in b ==> name in a
    ensures a == b
  {
    NextIsNew(a, b);
  }

  // ------------------------------------------------------------------ detection

  /** What decides which upstream models are wanted: ignore rules, redirections and regular expressions. */
  datatype Rules = Rules(ignored: seq<string>, mapping: map<string, string>, matches: (string, string) -> bool)

  predicate IsRegex(rule: string) {
    REGEX_PREFIX <= rule
  }

  predicate RuleMatches(matches: (string, string) -> bool, rule: string, name: string) {
    if IsRegex(rule) then matches(TrimSpace(rule[|REGEX_PREFIX|..]), name) else rule == name
  }

  predicate Ignored(matches: (string, string) -> bool, rules: seq<string>, name: string) {
    exists rule :: rule in rules && RuleMatches(matches, rule, name)
  }

  /** A new upstream model: neither local nor the target of a redirection nor ignored. */
  predicate Wanted(local: seq<string>, rules: Rules, name: string) {
    && name !in Normalize(local) && name !in rules.mapping.Values
    && !Ignored(rules.matches, Normalize(rules.ignored), name)
  }

  /** A local model that upstream no longer has; the sources of redirections stay. */
  predicate Gone(upstream: seq<string>, rules: Rules, name: string) {
    name !in rules.mapping.Keys && name !in Normalize(upstream)
  }

  function PendingAdd(local: seq<string>, upstream: seq<string>, rules: Rules): seq<string> {
    Filter(Normalize(upstream), name => Wanted(local, rules, name))
  }

  function PendingRemove(local: seq<string>, upstream: seq<string>, rules: Rules): seq<string> {
    Filter(Normalize(local), name => Gone(upstream, rules, name))
  }

  lemma PendingMembers(local: seq<string>, upstream: seq<string>, rules: Rules)
    ensures Canonical(PendingAdd(local, upstream, rules)) && Canonical(PendingRemove(local, upstream, rules))
    ensures forall name :: name in PendingAdd(local, upstream, rules) <==>
      name in Normalize(upstream) && Wanted(local, rules, name)
    ensures forall name :: name in PendingRemove(local, upstream, rules) <==>
      name in Normalize(local) && Gone(upstream, rules, name)
  {
    NormalizeIsCanonical(local);
    NormalizeIsCanonical(upstream);
    FilterMembers(Normalize(upstream), name => Wanted(local, rules, name));
    FilterMembers(Normalize(local), name => Gone(upstream, rules, name));
  }

  /** A rule hides a model: a pattern that matches its name, or the name itself. */
  ghost predicate Hides(matches: (string, string) -> bool, rule: string, name: string) {
    if "regex:" <= rule then matches(TrimSpace(rule[6..]), name) else rule == name
  }

  lemma IgnoredExactly(rules: Rules, name: string)
    ensures Ignored(rules.matches, Normalize(rules.ignored), name) <==>
      exists rule :: rule != "" && Mentions(rules.ignored, rule) && Hides(rules.matches, rule, name)
  {
    NormalizeIsCanonical(rules.ignored);
    if rule :| rule in Normalize(rules.ignored) && RuleMatches(rules.matches, rule, name) {
      assert Hides(rules.matches, rule, name);
    }
    if rule :| rule != "" && Mentions(rules.ignored, rule) && Hides(rules.matches, rule, name) {
      assert RuleMatches(rules.matches, rule, name);
    }
  }

  /**
   What is pending, in terms of the lists: a model that upstream mentions and the channel does
   not is to be added unless a redirection leads to it or a rule hides it; one that the
   channel mentions and upstream does not is to be removed unless a redirection starts at it.
   */
  lemma PendingExactly(local: seq<string>, upstream: seq<string>, rules: Rules, name: string)
    ensures name in PendingAdd(local, upstream, rules) <==>
      && name != "" && Mentions(upstream, name) && !Mentions(local, name)
      && !(exists source :: source in rules.mapping && rules.mapping[source] == name)
      && !(exists rule :: rule != "" && Mentions(rules.ignored, rule) && Hides(rules.matches, rule, name))
    ensures name in PendingRemove(local, upstream, rules) <==>
      name != "" && Mentions(local, name) && name !in rules.mapping && !Mentions(upstream, name)
  {
    hide Ignored, Mentions, Hides, Canonical;
    PendingMembers(local, upstream, rules);
    NormalizeIsCanonical(local);
    NormalizeIsCanonical(upstream);
    IgnoredExactly(rules, name);
  }

  /** A filtered list keeps the order: a kept name comes after the kept ones before it. */
  lemma {:induction false} FilterAt(s: seq<string>, p: string -> bool, i: nat)
    requires i < |s| && p(s[i])
    ensures |Filter(s[..i], p)| < |Filter(s, p)| && Filter(s, p)[|Filter(s[..i], p)|] == s[i]
  {
    var n := |s| - 1;
    if i < n {
      FilterAt(s[..n], p, i);
      assert s[..n][..i] == s[..i];
    }
  }

  /** A normalised list keeps the order of first mention. */
  lemma NormalizeAt(models: seq<string>, i: nat)
    requires i < |models| && TrimSpace(models[i]) != "" && TrimSpace(models[i]) !in Normalize(models[..i])
    ensures |Normalize(models[..i])| < |Normalize(models)|
    ensures Normalize(models)[|Normalize(models[..i])|] == TrimSpace(models[i])
  {
    assert models[..i + 1][..i] == models[..i];
    assert models[..i + 1] + models[i + 1..] == models;
    NormalizePrefix(models[..i + 1], models[i + 1..]);
  }

  // ------------------------------------------------------------ the two actions

  datatype Settings = Settings(
    ignored: seq<string>, detected: seq<string>, removed: seq<string>, lastCheck: int, autoSync: bool)

  datatype Channel = Channel(models: string, settings: Settings)

  function GetModels(ch: Channel): seq<string> {
    Parse(ch.models, COMMA)
  }

  function RulesOf(ch: Channel, mapping: map<string, string>, matches: (string, string) -> bool): Rules {
    Rules(ch.settings.ignored, mapping, matches)
  }

  predicate AutoApplies(ch: Channel, add: seq<string>, allowAuto: bool) {
    allowAuto && ch.settings.autoSync && add != []
  }

  /** A check that reached the upstream. */
  function Detect(ch: Channel, upstream: seq<string>, mapping: map<string, string>, matches: (string, string) -> bool,
                  allowAuto: bool, now: int): Channel {
    var rules := RulesOf(ch, mapping, matches);
    var add := PendingAdd(GetModels(ch), upstream, rules);
    var auto := AutoApplies(ch, add, allowAuto);
    var merged := Merge(Normalize(GetModels(ch)), add);
    Channel(
      if auto && |merged| > |Normalize(GetModels(ch))| then Join(merged, COMMA) else ch.models,
      ch.settings.(detected := if auto then [] else add,
                   removed := PendingRemove(GetModels(ch), upstream, rules), lastCheck := now))
  }

  datatype Selection = Selection(add: seq<string>, ignore: seq<string>, remove: seq<string>)

  /** The part of a selection that is pending; adding wins over removing. */
  function Effective(ch: Channel, input: Selection): Selection {
    var add := Intersect(input.add, Normalize(ch.settings.detected));
    Selection(add, Intersect(input.ignore, Normalize(ch.settings.detected)),
              Subtract(Intersect(input.remove, Normalize(ch.settings.removed)), add))
  }

  function NextModels(ch: Channel, input: Selection): seq<string> {
    var sel := Effective(ch, input);
    ApplySelected(Normalize(GetModels(ch)), sel.add, sel.remove)
  }

  function NextIgnored(ch: Channel, sel: Selection): seq<string> {
    var merged := Merge(ch.settings.ignored, sel.ignore);
    if |sel.add| > 0 then Subtract(merged, sel.add) else merged
  }

  function Apply(ch: Channel, input: Selection, now: int): Channel {
    var sel := Effective(ch, input);
    var next := NextModels(ch, input);
    Channel(
      if next != Normalize(GetModels(ch)) then Join(next, COMMA) else ch.models,
      ch.settings.(
        ignored := NextIgnored(ch, sel),
        detected := Subtract(Normalize(ch.settings.detected), sel.add + sel.ignore),
        removed := Subtract(Normalize(ch.settings.removed), sel.remove),
        lastCheck := now))
  }

  // -------------------------------------------------------- apply is a partition

  ghost predicate Disjoint(a: seq<string>, b: seq<string>) {
    forall name :: name in a ==> name !in b
  }

  lemma EffectiveMembers(ch: Channel, input: Selection)
    ensures var sel := Effective(ch, input);
      && Canonical(sel.add) && Canonical(sel.ignore) && Canonical(sel.remove)
      && (forall name :: name in sel.add <==> name in Normalize(input.add) && name in Normalize(ch.settings.detected))
      && (forall name :: name in sel.ignore <==>
          name in Normalize(input.ignore) && name in Normalize(ch.settings.detected))
      && (forall name :: name in sel.remove <==>
            name in Normalize(input.remove) && name in Normalize(ch.settings.removed) && name !in sel.add)
  {
    var detected, removed := Normalize(ch.settings.detected), Normalize(ch.settings.removed);
    NormalizeIsCanonical(ch.settings.detected);
    NormalizeIsCanonical(ch.settings.removed);
    NormalizeCanonical(detected);
    NormalizeCanonical(removed);
    IntersectMembers(input.add, detected);
    IntersectMembers(input.ignore, detected);
    IntersectMembers(input.remove, removed);
    var add, remove := Intersect(input.add, detected), Intersect(input.remove, removed);
    NormalizeCanonical(add);
    NormalizeCanonical(remove);
    SubtractMembers(remove, add);
  }

  /**
   Whatever is asked for, every pending addition is added, ignored without being added,
   or still pending, and only one of these; every pending removal is removed or still
   pending; and an added name is no longer on the ignore list.
   */
  lemma ApplyPartitions(ch: Channel, input: Selection, now: int)
    ensures var sel, after := Effective(ch, input), Apply(ch, input, now).settings;
      && Canonical(after.detected) && Canonical(after.removed) && Canonical(after.ignored)
      && (forall name :: name in Normalize(ch.settings.detected) <==>
          name in sel.add || name in sel.ignore || name in after.detected)
      && Disjoint(after.detected, sel.add) && Disjoint(after.detected, sel.ignore)
      && (forall name :: name in Normalize(ch.settings.removed) ==> (name in sel.remove <==> name !in after.removed))
      && (forall name :: name in sel.remove || name in after.removed ==> name in Normalize(ch.settings.removed))
      && (forall name :: name in after.ignored <==>
            (name in Normalize(ch.settings.ignored) || name in sel.ignore) && name !in sel.add)
  {
    var sel := Effective(ch, input);
    EffectiveMembers(ch, input);
    NormalizeIsCanonical(ch.settings.detected);
    NormalizeIsCanonical(ch.settings.removed);
    NormalizeCanonical(Normalize(ch.settings.detected));
    NormalizeCanonical(Normalize(ch.settings.removed));
    NormalizeCanonical(sel.add);
    NormalizeCanonical(sel.ignore);
    NormalizeCanonical(sel.remove);
    MergeMembers(sel.add, sel.ignore);
    SubtractMembers(Normalize(ch.settings.detected), sel.add + sel.ignore);
    SubtractMembers(Normalize(ch.settings.removed), sel.remove);
    MergeMembers(ch.settings.ignored, sel.ignore);
    NormalizeCanonical(Merge(ch.settings.ignored, sel.ignore));
    SubtractMembers(Merge(ch.settings.ignored, sel.ignore), sel.add);
  }

  /** The new model set, and that the models text is rewritten exactly when the set changes. */
  lemma ApplyModels(ch: Channel, input: Selection, now: int)
    ensures var sel, origin, next := Effective(ch, input), Normalize(GetModels(ch)), NextModels(ch, input);
      && Canonical(next)
      && (forall name :: name in next <==> name in sel.add || (name in origin && name !in sel.remove))
      && (next == origin <==> forall name :: name in next <==> name in origin)
  {
    var sel, origin := Effective(ch, input), Normalize(GetModels(ch));
    EffectiveMembers(ch, input);
    NormalizeIsCanonical(GetModels(ch));
    NormalizeCanonical(origin);
    NormalizeCanonical(sel.add);
    NormalizeCanonical(sel.remove);
    ApplySelectedMembers(origin, sel.add, sel.remove);
    ChangedExactly(origin, sel.add, sel.remove);
  }

  // ---------------------------------------------------------------- convergence

  /** Everything that is pending. */
  function All(ch: Channel): Selection {
    Selection(Normalize(ch.settings.detected), [], Normalize(ch.settings.removed))
  }

  ghost predicate NothingPending(ch: Channel) {
    Normalize(ch.settings.detected) == [] && Normalize(ch.settings.removed) == []
  }

  lemma LocalHasNoComma(ch: Channel)
    ensures forall name :: name in Normalize(GetModels(ch)) ==> COMMA !in name
  {
    NormalizeIsCanonical(GetModels(ch));
    SplitCount(Trim(ch.models, COMMA), COMMA);
    forall name | name in Normalize(GetModels(ch)) ensures COMMA !in name {
      var i :| 0 <= i < |GetModels(ch)| && TrimSpace(GetModels(ch)[i]) == name;
      TrimSpaceWithin(GetModels(ch)[i]);
    }
  }

  /** A list that is stored and read back is the same list exactly when no name has a comma. */
  lemma StoredModels(ch: Channel, next: seq<string>)
    requires Canonical(next)
    ensures Normalize(GetModels(ch.(models := Join(next, COMMA)))) == next <==> CommaFree(next)
  {
    if CommaFree(next) {
      ParseJoin(next, COMMA);
      NormalizeCanonical(next);
    } else {
      LocalHasNoComma(ch.(models := Join(next, COMMA)));
    }
  }

  /** The ignore rules that remain when these models are added. */
  function RemainingRules(ignored: seq<string>, add: seq<string>): seq<string> {
    if |add| > 0 then Subtract(Merge(ignored, []), add) else Merge(ignored, [])
  }

  /** No upstream model is ignored only by a rule that adding these models takes off the list. */
  ghost predicate RulesSurvive(local: seq<string>, upstream: seq<string>, rules: Rules, add: seq<string>) {
    forall name :: name in Normalize(upstream) && name !in Normalize(local) && name !in rules.mapping.Values
        && Ignored(rules.matches, Normalize(rules.ignored), name)
      ==> Ignored(rules.matches, RemainingRules(rules.ignored, add), name)
  }

  lemma RemainingRulesMembers(ignored: seq<string>, add: seq<string>)
    requires Canonical(add)
    ensures Canonical(RemainingRules(ignored, add))
    ensures forall rule :: rule in RemainingRules(ignored, add) <==> rule in Normalize(ignored) && rule !in add
  {
    MergeMembers(ignored, []);
    NormalizeCanonical(Merge(ignored, []));
    NormalizeCanonical(add);
    SubtractMembers(Merge(ignored, []), add);
  }

  lemma FewerRules(matches: (string, string) -> bool, rules: seq<string>, fewer: seq<string>, name: string)
    requires forall rule :: rule in fewer ==> rule in rules
    ensures Ignored(matches, fewer, name) ==> Ignored(matches, rules, name)
  {
  }

  /** A check without auto-sync, and then applying all that it found. */
  function Sync(ch: Channel, upstream: seq<string>, rules: Rules, now: int, later: int): Channel {
    var found := Detect(ch, upstream, rules.mapping, rules.matches, false, now);
    Apply(found, All(found), later)
  }

  /** What is applied is what was found; the models and rules that result. */
  lemma SyncIs(ch: Channel, upstream: seq<string>, rules: Rules, now: int, later: int)
    requires rules.ignored == ch.settings.ignored
    ensures var add := PendingAdd(GetModels(ch), upstream, rules);
      var remove := PendingRemove(GetModels(ch), upstream, rules);
      var found := Detect(ch, upstream, rules.mapping, rules.matches, false, now);
      var next := NextModels(found, All(found));
      var synced := Sync(ch, upstream, rules, now, later);
      && Canonical(next)
      && (forall name :: name in next <==> name in add || (name in Normalize(GetModels(ch)) && name !in remove))
      && synced.models == (if next != Normalize(GetModels(ch)) then Join(next, COMMA) else ch.models)
      && synced.settings.ignored == RemainingRules(rules.ignored, add)
  {
    var add, remove := PendingAdd(GetModels(ch), upstream, rules), PendingRemove(GetModels(ch), upstream, rules);
    var found := Detect(ch, upstream, rules.mapping, rules.matches, false, now);
    PendingMembers(GetModels(ch), upstream, rules);
    NormalizeCanonical(add);
    NormalizeCanonical(remove);
    var sel := Effective(found, All(found));
    EffectiveMembers(found, All(found));
    ApplyModels(found, All(found), later);
    FilterMembers(add, name => name in add);
    assert sel.add == add by {
      FilterMembers(Normalize(add), name => name in Normalize(add));
    }
    assert sel.ignore == [] by {
      assert forall name :: name !in sel.ignore;
      NothingIn(sel.ignore);
    }
    assert forall name :: name in sel.remove <==> name in remove;
  }

  lemma NothingIn(s: seq<string>)
    requires forall name :: name !in s
    ensures s == []
  {
    FirstIsIn(s);
  }

  ghost predicate CommaFree(s: seq<string>) {
    forall name :: name in s ==> COMMA !in name
  }

  /** The rules as they are after the sync. */
  function RulesAfter(ch: Channel, upstream: seq<string>, rules: Rules): Rules {
    rules.(ignored := RemainingRules(rules.ignored, PendingAdd(GetModels(ch), upstream, rules)))
  }

  /** With comma-free names the synced models are the old ones, plus the additions, minus the removals. */
  lemma SyncedModels(ch: Channel, upstream: seq<string>, rules: Rules, now: int, later: int)
    requires rules.ignored == ch.settings.ignored && CommaFree(PendingAdd(GetModels(ch), upstream, rules))
    ensures forall name :: name in Normalize(GetModels(Sync(ch, upstream, rules, now, later))) <==>
      || name in PendingAdd(GetModels(ch), upstream, rules)
      || (name in Normalize(GetModels(ch)) && name !in PendingRemove(GetModels(ch), upstream, rules))
  {
    var found := Detect(ch, upstream, rules.mapping, rules.matches, false, now);
    SyncIs(ch, upstream, rules, now, later);
    LocalHasNoComma(ch);
    StoredModels(ch, NextModels(found, All(found)));
  }

  lemma StillPending(ch: Channel, upstream: seq<string>, rules: Rules, now: int, later: int, name: string)
    requires rules.ignored == ch.settings.ignored
    requires name in PendingAdd(GetModels(ch), upstream, rules) && COMMA in name
    ensures name in PendingAdd(GetModels(Sync(ch, upstream, rules, now, later)), upstream, RulesAfter(ch,
      upstream, rules))
  {
    var add := PendingAdd(GetModels(ch), upstream, rules);
    var synced := Sync(ch, upstream, rules, now, later);
    var after := RulesAfter(ch, upstream, rules);
    PendingMembers(GetModels(ch), upstream, rules);
    PendingMembers(GetModels(synced), upstream, after);
    LocalHasNoComma(synced);
    RemainingRulesMembers(rules.ignored, add);
    NormalizeCanonical(after.ignored);
    FewerRules(rules.matches, Normalize(rules.ignored), after.ignored, name);
  }

  /** With comma-free names the new pending additions are exactly the models that lost their ignore rule. */
  lemma NewlyPending(ch: Channel, upstream: seq<string>, rules: Rules, now: int, later: int)
    requires rules.ignored == ch.settings.ignored && CommaFree(PendingAdd(GetModels(ch), upstream, rules))
    ensures var synced, after := Sync(ch, upstream, rules, now, later), RulesAfter(ch, upstream, rules);
      && PendingRemove(GetModels(synced), upstream, after) == []
      && forall name :: name in PendingAdd(GetModels(synced), upstream, after) <==>
           && name in Normalize(upstream) && name !in Normalize(GetModels(ch)) && name !in rules.mapping.Values
           && Ignored(rules.matches, Normalize(rules.ignored), name) && !Ignored(rules.matches, after.ignored, name)
  {
    var add := PendingAdd(GetModels(ch), upstream, rules);
    var synced, after := Sync(ch, upstream, rules, now, later), RulesAfter(ch, upstream, rules);
    PendingMembers(GetModels(ch), upstream, rules);
    PendingMembers(GetModels(synced), upstream, after);
    SyncedModels(ch, upstream, rules, now, later);
    RemainingRulesMembers(rules.ignored, add);
    NormalizeCanonical(after.ignored);
    NothingIn(PendingRemove(GetModels(synced), upstream, after));
    forall name ensures Ignored(rules.matches, after.ignored, name) ==>
      Ignored(rules.matches, Normalize(rules.ignored), name) {
      FewerRules(rules.matches, Normalize(rules.ignored), after.ignored, name);
    }
  }

  /**
   Detecting, applying everything and detecting again finds nothing exactly when no
   added name has a comma and no ignore rule that still hides a model is itself added.
   */
  lemma SyncConvergesExactly(ch: Channel, upstream: seq<string>, rules: Rules, now: int, later: int, last: int)
    requires rules.ignored == ch.settings.ignored
    ensures var add := PendingAdd(GetModels(ch), upstream, rules);
      var again := Detect(Sync(ch, upstream, rules, now, later), upstream, rules.mapping, rules.matches, false, last);
      NothingPending(again) <==> CommaFree(add) && RulesSurvive(GetModels(ch), upstream, rules, add)
  {
    var add := PendingAdd(GetModels(ch), upstream, rules);
    var synced, after := Sync(ch, upstream, rules, now, later), RulesAfter(ch, upstream, rules);
    var again := PendingAdd(GetModels(synced), upstream, after);
    SyncIs(ch, upstream, rules, now, later);
    PendingMembers(GetModels(synced), upstream, after);
    NormalizeCanonical(again);
    NormalizeCanonical(PendingRemove(GetModels(synced), upstream, after));
    if CommaFree(add) {
      NewlyPending(ch, upstream, rules, now, later);
      if RulesSurvive(GetModels(ch), upstream, rules, add) {
        NothingIn(again);
      }
    } else {
      var name :| name in add && COMMA in name;
      StillPending(ch, upstream, rules, now, later, name);
    }
  }

  /** Without names that look like rules, no rule is ever taken off the list that hides a model. */
  lemma PlainNamesKeepRules(local: seq<string>, upstream: seq<string>, rules: Rules)
    requires forall name :: name in PendingAdd(local, upstream, rules) ==> !IsRegex(name)
    ensures RulesSurvive(local, upstream, rules, PendingAdd(local, upstream, rules))
  {
    var add := PendingAdd(local, upstream, rules);
    PendingMembers(local, upstream, rules);
    RemainingRulesMembers(rules.ignored, add);
    forall rule | rule in Normalize(rules.ignored) ensures rule !in add {
      if rule in add {
        assert RuleMatches(rules.matches, rule, rule);
      }
    }
  }

  // ------------------------------------------------------ what is stored and kept

  /** A name without comma that is stored is read back, whatever the other names are. */
  lemma StoredIsRead(ch: Channel, next: seq<string>, name: string)
    requires Canonical(next) && name in next && COMMA !in name
    ensures name in Normalize(GetModels(ch.(models := Join(next, COMMA))))
  {
    var i :| 0 <= i < |next| && next[i] == name;
    ParsedPart(next, COMMA, i);
    var models := GetModels(ch.(models := Join(next, COMMA)));
    NormalizeIsCanonical(models);
    var k :| 0 <= k < |models| && models[k] == name;
    assert TrimSpace(models[k]) == name;
  }

  /** What a check changes: the pending lists and the time, and the models only by an automatic sync. */
  lemma DetectExactly(ch: Channel, upstream: seq<string>, mapping: map<string, string>,
                      matches: (string, string) -> bool, allowAuto: bool, now: int)
    ensures var found := Detect(ch, upstream, mapping, matches, allowAuto, now);
      var rules := Rules(ch.settings.ignored, mapping, matches);
      var add := PendingAdd(GetModels(ch), upstream, rules);
      && found.settings.ignored == ch.settings.ignored && found.settings.autoSync == ch.settings.autoSync
      && found.settings.lastCheck == now && found.settings.removed == PendingRemove(GetModels(ch), upstream, rules)
      && if allowAuto && ch.settings.autoSync && add != []
         then found.settings.detected == [] && found.models == Join(Normalize(GetModels(ch)) + add, COMMA)
         else found.settings.detected == add && found.models == ch.models
  {
    AutoSyncCount(ch, upstream, Rules(ch.settings.ignored, mapping, matches));
  }

  /** What applying changes besides the pending lists and rules; the stored models are the new ones. */
  lemma ApplyExactly(ch: Channel, input: Selection, now: int)
    ensures var after, next := Apply(ch, input, now), NextModels(ch, input);
      && after.settings.lastCheck == now && after.settings.autoSync == ch.settings.autoSync
      && (next == Normalize(GetModels(ch)) ==> after.models == ch.models)
      && (CommaFree(next) ==> Normalize(GetModels(after)) == next)
      && (forall name :: name in next && COMMA !in name ==> name in Normalize(GetModels(after)))
  {
    var next := NextModels(ch, input);
    ApplyModels(ch, input, now);
    StoredModels(ch, next);
    forall name | name in next && COMMA !in name ensures name in Normalize(GetModels(Apply(ch, input, now))) {
      if next != Normalize(GetModels(ch)) {
        StoredIsRead(ch, next, name);
      }
    }
  }

  /** The source of a redirection stays when everything that was found is applied. */
  lemma SyncKeepsSource(ch: Channel, upstream: seq<string>, rules: Rules, now: int, later: int, name: string)
    requires rules.ignored == ch.settings.ignored
    requires name in rules.mapping && name in Normalize(GetModels(ch))
    ensures name in Normalize(GetModels(Sync(ch, upstream, rules, now, later)))
  {
    var found := Detect(ch, upstream, rules.mapping, rules.matches, false, now);
    SyncIs(ch, upstream, rules, now, later);
    NormalizeIsCanonical(GetModels(ch));
    PendingExactly(GetModels(ch), upstream, rules, name);
    LocalHasNoComma(ch);
    ApplyExactly(found, All(found), later);
  }

  lemma AutoSyncKeeps(ch: Channel, upstream: seq<string>, rules: Rules, now: int, name: string)
    requires rules.ignored == ch.settings.ignored && name in Normalize(GetModels(ch))
    ensures name in Normalize(GetModels(Detect(ch, upstream, rules.mapping, rules.matches, true, now)))
  {
    var origin, add := Normalize(GetModels(ch)), PendingAdd(GetModels(ch), upstream, rules);
    DetectExactly(ch, upstream, rules.mapping, rules.matches, true, now);
    AutoSyncCount(ch, upstream, rules);
    LocalHasNoComma(ch);
    StoredIsRead(ch, origin + add, name);
  }

  /** A round with an upstream list: an automatic sync, or a check and then applying everything. */
  datatype Round = Round(upstream: seq<string>, auto: bool, now: int, later: int)

  function AfterRound(ch: Channel, mapping: map<string, string>, matches: (string, string) -> bool, r: Round): Channel {
    if r.auto then Detect(ch, r.upstream, mapping, matches, true, r.now)
    else Sync(ch, r.upstream, RulesOf(ch, mapping, matches), r.now, r.later)
  }

  function AfterRounds(ch: Channel, mapping: map<string, string>, matches: (string, string) -> bool, rounds: seq<Round>)
    : Channel
    decreases |rounds|
  {
    if rounds == [] then ch else AfterRounds(AfterRound(ch, mapping, matches, rounds[0]), mapping, matches, rounds[1..])
  }

  /** Over any rounds, whatever upstream offers, no source of a redirection leaves the models. */
  lemma {:induction false} RoundsKeepSources(
    ch: Channel, mapping: map<string, string>, matches: (string, string) -> bool, rounds: seq<Round>, name: string)
    requires name in mapping && name in Normalize(GetModels(ch))
    ensures name in Normalize(GetModels(AfterRounds(ch, mapping, matches, rounds)))
    decreases |rounds|
  {
    if rounds != [] {
      hide Detect, Sync, Normalize, GetModels;
      var r, rules := rounds[0], RulesOf(ch, mapping, matches);
      if r.auto {
        AutoSyncKeeps(ch, r.upstream, rules, r.now, name);
      } else {
        SyncKeepsSource(ch, r.upstream, rules, r.now, r.later, name);
      }
      RoundsKeepSources(AfterRound(ch, mapping, matches, r), mapping, matches, rounds[1..], name);
    }
  }

  // ------------------------------------------------------------------ auto-sync

  lemma MergeAddsAll(origin: seq<string>, add: seq<string>)
    requires Canonical(origin) && Canonical(add) && Disjoint(add, origin)
    ensures Merge(origin, add) == origin + add && Canonical(origin + add)
  {
    forall i, j | 0 <= i < |origin| && 0 <= j < |add| ensures origin[i] != add[j] {
      assert add[j] in add && origin[i] in origin;
    }
    NormalizeCanonical(origin + add);
  }

  /** The reported number of automatically added models is the number of pending additions. */
  lemma AutoSyncCount(ch: Channel, upstream: seq<string>, rules: Rules)
    requires rules.ignored == ch.settings.ignored
    ensures var origin, add := Normalize(GetModels(ch)), PendingAdd(GetModels(ch), upstream, rules);
      && Merge(origin, add) == origin + add && Canonical(origin + add)
      && |Merge(origin, add)| - |origin| == |add|
  {
    NormalizeIsCanonical(GetModels(ch));
    PendingMembers(GetModels(ch), upstream, rules);
    MergeAddsAll(Normalize(GetModels(ch)), PendingAdd(GetModels(ch), upstream, rules));
  }

  /** After an automatic sync nothing is left to add exactly when no added name has a comma. */
  lemma AutoSyncConvergesExactly(ch: Channel, upstream: seq<string>, rules: Rules, now: int)
    requires rules.ignored == ch.settings.ignored && ch.settings.autoSync
    ensures var add := PendingAdd(GetModels(ch), upstream, rules);
      var synced := Detect(ch, upstream, rules.mapping, rules.matches, true, now);
      PendingAdd(GetModels(synced), upstream, rules) == [] <==> CommaFree(add)
  {
    var origin, add := Normalize(GetModels(ch)), PendingAdd(GetModels(ch), upstream, rules);
    var synced := Detect(ch, upstream, rules.mapping, rules.matches, true, now);
    NormalizeIsCanonical(GetModels(ch));
    PendingMembers(GetModels(ch), upstream, rules);
    PendingMembers(GetModels(synced), upstream, rules);
    AutoSyncCount(ch, upstream, rules);
    LocalHasNoComma(ch);
    if CommaFree(add) {
      NormalizeCanonical(origin);
      StoredModels(ch, origin + add);
      assert add != [] ==> Normalize(GetModels(synced)) == origin + add;
      NothingIn(PendingAdd(GetModels(synced), upstream, rules));
    } else {
      LocalHasNoComma(synced);
    }
  }

  // --------------------------------------------------------------- failing cases

  const EMPTY := Channel("", Settings([], [], [], 0, true))

  lemma NormalizeOne(name: string, other: string)
    requires Canonical([name, other])
    ensures Normalize([name]) == [name]
  {
    assert [name, other][0] == name;
    NormalizeCanonical([name]);
  }

  /** An upstream name with a comma is added, read back as two names, and found missing again. */
  lemma CommaNameKeepsComing(matches: (string, string) -> bool)
    ensures var rules := Rules([], map[], matches);
      && PendingAdd(GetModels(EMPTY), ["a,b"], rules) == ["a,b"]
      && !NothingPending(Detect(Sync(EMPTY, ["a,b"], rules, 0, 1), ["a,b"], map[], matches, false, 2))
  {
    var rules := Rules([], map[], matches);
    NormalizeCanonical(["a,b"]);
    assert ["a,b"][..0] == [] && Wanted([], rules, "a,b");
    assert PendingAdd(GetModels(EMPTY), ["a,b"], rules) == ["a,b"];
    assert "a,b"[1] == COMMA;
    SyncConvergesExactly(EMPTY, ["a,b"], rules, 0, 1, 2);
  }

  /** Adding a model named like the rule that hides another one brings the other one up. */
  lemma RuleNamedModelUncovers(rules: Rules, rule: string, name: string)
    requires rules.ignored == [rule] && rules.mapping == map[] && Canonical([rule, name])
    requires RuleMatches(rules.matches, rule, name) && !RuleMatches(rules.matches, rule, rule)
    ensures var ch := EMPTY.(settings := EMPTY.settings.(ignored := [rule]));
      !NothingPending(Detect(Sync(ch, [rule, name], rules, 0, 1), [rule, name], map[], rules.matches, false, 2))
  {
    var ch, upstream := EMPTY.(settings := EMPTY.settings.(ignored := [rule])), [rule, name];
    var add := PendingAdd(GetModels(ch), upstream, rules);
    NormalizeOne(rule, name);
    NormalizeCanonical(upstream);
    PendingMembers(GetModels(ch), upstream, rules);
    assert upstream[0] in upstream && upstream[1] in upstream;
    RemainingRulesMembers([rule], add);
    NothingIn(RemainingRules([rule], add));
    assert rule in [rule];
    SyncConvergesExactly(ch, upstream, rules, 0, 1, 2);
  }

  /** For instance when a channel ignores by pattern and upstream names a model like the pattern. */
  lemma PatternNamedModel(matches: (string, string) -> bool)
    requires matches("^y$", "y") && !matches("^y$", "regex:^y$")
    ensures var ch := EMPTY.(settings := EMPTY.settings.(ignored := ["regex:^y$"]));
      var rules := Rules(["regex:^y$"], map[], matches);
      !NothingPending(Detect(Sync(ch, ["regex:^y$", "y"], rules, 0, 1), ["regex:^y$", "y"], map[], matches, false, 2))
  {
    assert "regex:^y$"[6..] == "^y$";
    RuleNamedModelUncovers(Rules(["regex:^y$"], map[], matches), "regex:^y$", "y");
  }
}
