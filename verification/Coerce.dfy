/**
 The repair of the action list a model returns, containers/browser-use/server.py.
 */
module Coercing {
  import opened Wrappers
  import opened JsonText

  // ------------------------------------------------------------ text

  // The characters str.strip removes.
  predicate IsSpace(c: char) {
    || '\t' <= c <= '\r'
    || '\U{1C}' <= c <= ' '
    || c in ['\U{85}', '\U{A0}', '\U{1680}', '\U{2028}', '\U{2029}', '\U{202F}', '\U{205F}', '\U{3000}']
    || '\U{2000}' <= c <= '\U{200A}'
  }

  predicate IsBlank(s: string) {
    forall i :: 0 <= i < |s| ==> IsSpace(s[i])
  }

  predicate IsPlainText(value: Option<Json>) {
    value.Some? && value.value.Str? && !IsBlank(value.value.text)
  }

  function Join(parts: seq<string>, separator: string): string {
    if parts == [] then ""
    else if |parts| == 1 then parts[0]
    else parts[0] + separator + Join(parts[1..], separator)
  }

  predicate Within(part: string, s: string) {
    exists i :: 0 <= i <= |s| && part <= s[i..]
  }

  // The non-blank strings below a value, in insertion order; lists are not entered.
  function Leaves(value: Json): seq<string>
    decreases value, 1
  {
    match value
    case Str(text) => if IsBlank(text) then [] else [text]
    case Obj(fields) => FieldLeaves(fields)
    case _ => []
  }

  function FieldLeaves(fields: seq<Field>): seq<string>
    decreases fields, 0
  {
    if fields == [] then [] else Leaves(fields[0].value) + FieldLeaves(fields[1..])
  }

  function DoneText(params: Json): Option<string> {
    match params
    case Str(text) => Some(text)
    case Obj(fields) =>
      var text := Lookup(fields, "text");
      var leaves := FieldLeaves(Except(fields, {"text"}));
      if IsPlainText(text) then Some(text.value.text)
      else if leaves != [] then Some(Join(leaves, " "))
      else Some(Dumps(params))
    case _ => None
  }

  // ------------------------------------------------------------ the declared actions

  const DONE_DECLARED_FIELDS: set<string> := {"text", "success", "files_to_display"}

  const ACTION_REQUIRED_FIELDS: map<string, seq<string>> := map[
    "click" := ["index"],
    "close" := ["tab_id"],
    "done" := ["text"],
    "dropdown_options" := ["index"],
    "evaluate" := ["code"],
    "extract" := ["query"],
    "find_elements" := ["selector"],
    "find_text" := ["text"],
    "go_back" := [],
    "input" := ["index", "text"],
    "navigate" := ["url"],
    "read_file" := ["file_name"],
    "replace_file" := ["file_name", "old_str", "new_str"],
    "save_as_pdf" := [],
    "screenshot" := [],
    "scroll" := [],
    "search" := ["query"],
    "search_page" := ["pattern"],
    "select_dropdown" := ["index", "text"],
    "send_keys" := ["keys"],
    "switch" := ["tab_id"],
    "upload_file" := ["index", "path"],
    "wait" := [],
    "write_file" := ["file_name", "content"]
  ]

  datatype Alias = Alias(wrong: string, right: string)

  function AliasesOf(action: string): seq<Alias> {
    if action == "input" then [Alias("value", "text")]
    else if action == "extract" then [Alias("prompt", "query")]
    else if action == "search_page" then [Alias("query", "pattern")]
    else []
  }

  predicate HasAll(fields: seq<Field>, keys: seq<string>) {
    forall i :: 0 <= i < |keys| ==> Has(fields, keys[i])
  }

  // ------------------------------------------------------------ the repair

  // None means there is nothing to do and the caller keeps the original.
  function CoerceDone(done: Json): Option<Json> {
    match done
    case Str(_) => Some(Obj([Field("text", done)]))
    case Obj(fields) =>
      var undeclared := Except(fields, DONE_DECLARED_FIELDS);
      if undeclared == [] then None
      else
        var kept := Only(fields, DONE_DECLARED_FIELDS);
        var out := if IsPlainText(Lookup(kept, "text")) then kept else WithCollapsed(kept, DoneText(Obj(undeclared)));
        if !Has(out, "text") then None else Some(Obj(out))
    case _ => None
  }

  function WithCollapsed(kept: seq<Field>, collapsed: Option<string>): seq<Field> {
    if collapsed.Some? && collapsed.value != "" then Put(kept, "text", Str(collapsed.value)) else kept
  }

  // Fields renamed by the aliases of the action; the renamed field moves to the end.
  function Renamed(fields: seq<Field>, aliases: seq<Alias>): (r: (seq<Field>, bool))
    decreases aliases
  {
    if aliases == [] then (fields, false)
    else
      var Alias(wrong, right) := aliases[0];
      if Has(fields, wrong) && !Has(fields, right) then
        var moved := Put(Except(fields, {wrong}), right, Lookup(fields, wrong).value);
        (Renamed(moved, aliases[1..]).0, true)
      else Renamed(fields, aliases[1..])
  }

  datatype Outcome = Outcome(element: Json, changed: bool, unfixed: bool)

  function FailedDone(text: string): Json {
    Obj([Field("done", Obj([Field("text", Str(text)), Field("success", Bool(false))]))])
  }

  function CoerceElement(elem: Json): Outcome {
    match elem
    case Str(text) => Outcome(FailedDone(text), true, false)
    case Obj(fields) =>
      if Has(fields, "done") then CoerceDoneElement(fields)
      else if |fields| != 1 then Outcome(elem, false, true)
      else CoerceAction(fields[0].key, fields[0].value)
    case _ => Outcome(elem, false, false)
  }

  function CoerceDoneElement(fields: seq<Field>): Outcome
    requires Has(fields, "done")
  {
    var done := Lookup(fields, "done").value;
    match CoerceDone(done)
    case None => Outcome(Obj(fields), false, !done.Obj? || Except(done.fields, DONE_DECLARED_FIELDS) != [])
    case Some(coerced) =>
      if Equal(coerced, done) then Outcome(Obj(fields), false, |fields| > 1)
      else Outcome(Obj(Put(fields, "done", coerced)), true, |fields| > 1)
  }

  function CoerceAction(name: string, payload: Json): Outcome {
    var elem := Obj([Field(name, payload)]);
    if name !in ACTION_REQUIRED_FIELDS then
      if name == "text" && payload.Str? then Outcome(FailedDone(payload.text), true, false)
      else Outcome(elem, false, true)
    else if !payload.Obj? then Outcome(elem, false, true)
    else
      var required := ACTION_REQUIRED_FIELDS[name];
      if HasAll(payload.fields, required) then Outcome(elem, false, false)
      else
        var (out, renamed) := Renamed(payload.fields, AliasesOf(name));
        if HasAll(out, required) then Outcome(Obj([Field(name, Obj(out))]), renamed, false)
        else Outcome(elem, false, true)
  }

  // ------------------------------------------------------------ what a repaired done() carries

  lemma {:induction false} JoinNotBlank(parts: seq<string>, separator: string)
    requires parts != [] && forall i :: 0 <= i < |parts| ==> !IsBlank(parts[i])
    ensures !IsBlank(Join(parts, separator))
  {
    var i :| 0 <= i < |parts[0]| && !IsSpace(parts[0][i]);
    assert !IsSpace(Join(parts, separator)[i]);
  }

  lemma {:induction false} LeavesNotBlank(value: Json)
    ensures forall i :: 0 <= i < |Leaves(value)| ==> !IsBlank(Leaves(value)[i])
    decreases value, 1
  {
    if value.Obj? {
      FieldLeavesNotBlank(value.fields);
    }
  }

  lemma {:induction false} FieldLeavesNotBlank(fields: seq<Field>)
    ensures forall i :: 0 <= i < |FieldLeaves(fields)| ==> !IsBlank(FieldLeaves(fields)[i])
    decreases fields, 0
  {
    if fields != [] {
      LeavesNotBlank(fields[0].value);
      FieldLeavesNotBlank(fields[1..]);
    }
  }

  /** The collapsed answer is never silently empty. */
  lemma DoneTextNotBlank(fields: seq<Field>)
    ensures DoneText(Obj(fields)).Some? && !IsBlank(DoneText(Obj(fields)).value)
  {
    var rest := Except(fields, {"text"});
    if FieldLeaves(rest) != [] {
      FieldLeavesNotBlank(rest);
      JoinNotBlank(FieldLeaves(rest), " ");
    }
    assert !IsSpace(Dumps(Obj(fields))[0]);
  }

  /** Joining loses no part: each one is found whole in the result. */
  lemma {:induction false} JoinHoldsParts(parts: seq<string>, separator: string, k: nat)
    requires k < |parts|
    ensures Within(parts[k], Join(parts, separator))
  {
    var joined := Join(parts, separator);
    if |parts| == 1 || k == 0 {
      assert parts[k] <= joined[0..];
    } else {
      JoinHoldsParts(parts[1..], separator, k - 1);
      var rest := Join(parts[1..], separator);
      var i :| 0 <= i <= |rest| && parts[k] <= rest[i..];
      var skipped := |parts[0] + separator|;
      assert joined == (parts[0] + separator) + rest;
      assert joined[skipped + i..] == rest[i..];
    }
  }

  /** Every non-blank string among the undeclared extras survives in the collapsed text. */
  lemma CollapsedHoldsLeaves(fields: seq<Field>, k: nat)
    requires !IsPlainText(Lookup(fields, "text")) && k < |FieldLeaves(Except(fields, {"text"}))|
    ensures Within(FieldLeaves(Except(fields, {"text"}))[k], DoneText(Obj(fields)).value)
  {
    JoinHoldsParts(FieldLeaves(Except(fields, {"text"})), " ", k);
  }

  /** A non-blank string that stands in the value, or in a field of it, however deep; what a list holds does not count. */
  ghost predicate IsLeaf(text: string, value: Json) {
    || (value == Str(text) && !IsBlank(text))
    || (value.Obj? && exists i :: 0 <= i < |value.fields| && IsLeaf(text, value.fields[i].value))
  }

  /** These strings, and no others, are collected. */
  lemma {:induction false} LeavesExactly(text: string, value: Json)
    ensures text in Leaves(value) <==> IsLeaf(text, value)
    decreases value, 1
  {
    if value.Obj? {
      FieldLeavesExactly(text, value.fields);
    }
  }

  lemma {:induction false} FieldLeavesExactly(text: string, fields: seq<Field>)
    ensures text in FieldLeaves(fields) <==> exists i :: 0 <= i < |fields| && IsLeaf(text, fields[i].value)
    decreases fields, 0
  {
    if fields != [] {
      LeavesExactly(text, fields[0].value);
      FieldLeavesExactly(text, fields[1..]);
      assert fields == [fields[0]] + fields[1..];
    }
  }

  /** They are collected in the order of the fields. */
  lemma {:induction false} LeavesInOrder(fields: seq<Field>, more: seq<Field>)
    ensures FieldLeaves(fields + more) == FieldLeaves(fields) + FieldLeaves(more)
  {
    hide Leaves;
    assert FieldLeaves([]) == [];
    if fields == [] {
      assert fields + more == more;
    } else {
      LeavesInOrder(fields[1..], more);
      assert (fields + more)[1..] == fields[1..] + more;
      Regroup(Leaves(fields[0].value), FieldLeaves(fields[1..]), FieldLeaves(more));
    }
  }

  lemma Regroup(a: seq<string>, b: seq<string>, c: seq<string>)
    ensures (a + b) + c == a + (b + c)
  {
  }

  lemma {:induction false} JoinInOrder(parts: seq<string>, more: seq<string>, separator: string)
    requires parts != [] && more != []
    ensures Join(parts + more, separator) == Join(parts, separator) + separator + Join(more, separator)
  {
    if |parts| == 1 {
      assert (parts + more)[1..] == more;
    } else {
      JoinInOrder(parts[1..], more, separator);
      assert (parts + more)[1..] == parts[1..] + more;
    }
  }

  lemma {:induction false} ExceptEmpty(fields: seq<Field>, keys: set<string>)
    ensures Except(fields, keys) == [] <==> forall i :: 0 <= i < |fields| ==> fields[i].key in keys
  {
    if fields != [] {
      ExceptEmpty(fields[1..], keys);
    }
  }

  lemma {:induction false} ExceptPut(fields: seq<Field>, keys: set<string>, key: string, value: Json)
    requires key in keys
    ensures Except(Put(fields, key, value), keys) == Except(fields, keys)
  {
    if fields != [] {
      ExceptPut(fields[1..], keys, key, value);
      var put := Put(fields, key, value);
      assert put[1..] == if fields[0].key == key then fields[1..] else Put(fields[1..], key, value);
    }
  }

  lemma {:induction false} ExceptOnly(fields: seq<Field>, keys: set<string>)
    ensures Except(Only(fields, keys), keys) == []
  {
    if fields != [] {
      ExceptOnly(fields[1..], keys);
      if fields[0].key in keys {
        assert Only(fields, keys)[1..] == Only(fields[1..], keys);
      }
    }
  }

  /**
   A done() dict is rewritten exactly when it carries an undeclared field. The rewritten one has declared fields
   only, the very success and files_to_display it came with, its own text if that was a non-blank string and the
   collapsed extras otherwise.
   */
  lemma DoneKeepsDeclared(fields: seq<Field>)
    ensures CoerceDone(Obj(fields)).Some? <==> exists i :: 0 <= i < |fields| && fields[i].key !in DONE_DECLARED_FIELDS
    ensures CoerceDone(Obj(fields)).Some? ==>
      var out := CoerceDone(Obj(fields)).value;
      && out.Obj?
      && (forall i :: 0 <= i < |out.fields| ==> out.fields[i].key in DONE_DECLARED_FIELDS)
      && Lookup(out.fields, "success") == Lookup(fields, "success")
      && Lookup(out.fields, "files_to_display") == Lookup(fields, "files_to_display")
      && IsPlainText(Lookup(out.fields, "text"))
      && Lookup(out.fields, "text").value ==
         if IsPlainText(Lookup(fields, "text")) then Lookup(fields, "text").value
         else Str(DoneText(Obj(Except(fields, DONE_DECLARED_FIELDS))).value)
  {
    var keys := DONE_DECLARED_FIELDS;
    var undeclared := Except(fields, keys);
    var kept := Only(fields, keys);
    ExceptEmpty(fields, keys);
    DoneTextNotBlank(undeclared);
    ExceptOnly(fields, keys);
    forall k ensures Lookup(kept, k) == if k in keys then Lookup(fields, k) else None {
      LookupOnly(fields, keys, k);
    }
    var text := Str(DoneText(Obj(undeclared)).value);
    forall k ensures Lookup(Put(kept, "text", text), k) == if k == "text" then Some(text) else Lookup(kept, k) {
      LookupPut(kept, "text", text, k);
    }
    ExceptPut(kept, keys, "text", text);
    ExceptEmpty(Put(kept, "text", text), keys);
    ExceptEmpty(kept, keys);
  }

  /** A rewritten done() never equals the original, so the branch for a clean done() beside extra keys is dead. */
  lemma CleanBranchIsDead(done: Json)
    requires CoerceDone(done).Some?
    ensures !Equal(CoerceDone(done).value, done)
  {
    if done.Obj? {
      DoneKeepsDeclared(done.fields);
      var out := CoerceDone(done).value.fields;
      var i :| 0 <= i < |done.fields| && done.fields[i].key !in DONE_DECLARED_FIELDS;
      assert !Has(out, done.fields[i].key) by {
        if Has(out, done.fields[i].key) {
          var j := KeyAtOf(out, done.fields[i].key);
        }
      }
    }
  }

  // ------------------------------------------------------------ what the repair makes of an element

  /** One declared action with every field it requires, and for done() no undeclared one. */
  predicate IsAccepted(elem: Json) {
    && elem.Obj? && |elem.fields| == 1
    && var Field(name, payload) := elem.fields[0];
    && name in ACTION_REQUIRED_FIELDS
    && payload.Obj?
    && HasAll(payload.fields, ACTION_REQUIRED_FIELDS[name])
    && (name == "done" ==> Except(payload.fields, DONE_DECLARED_FIELDS) == [])
  }

  predicate IsCleanDone(elem: Json) {
    && elem.Obj? && Has(elem.fields, "done")
    && var done := Lookup(elem.fields, "done").value;
    && done.Obj? && Except(done.fields, DONE_DECLARED_FIELDS) == []
  }

  /**
   What the flag misses: an element that is neither an object nor a string, and an all-declared done() that has a
   key beside it or no text.
   */
  predicate IsUnnoticed(elem: Json) {
    || (!elem.Obj? && !elem.Str?)
    || (IsCleanDone(elem) && (|elem.fields| > 1 || !Has(Lookup(elem.fields, "done").value.fields, "text")))
  }

  lemma FailedDoneIsAccepted(text: string)
    ensures IsAccepted(FailedDone(text))
  {
    ExceptEmpty(FailedDone(text).fields[0].value.fields, DONE_DECLARED_FIELDS);
  }

  /** The residual flag is raised exactly on the elements still rejected, except for the unnoticed ones. */
  lemma FlagIsExact(elem: Json)
    ensures (CoerceElement(elem).unfixed <==> !IsAccepted(CoerceElement(elem).element)) <==> !IsUnnoticed(elem)
  {
    if elem.Str? {
      FailedDoneIsAccepted(elem.text);
    } else if elem.Obj? && Has(elem.fields, "done") {
      FlagOfDone(elem.fields);
    } else if elem.Obj? && |elem.fields| == 1 {
      FlagOfAction(elem.fields[0].key, elem.fields[0].value);
      assert elem == Obj([elem.fields[0]]);
    }
  }

  lemma {:induction false} RenamedFlag(fields: seq<Field>, aliases: seq<Alias>)
    ensures !Renamed(fields, aliases).1 ==> Renamed(fields, aliases).0 == fields
    decreases aliases
  {
    if aliases != [] {
      RenamedFlag(fields, aliases[1..]);
    }
  }

  lemma RenamedOne(fields: seq<Field>, alias: Alias)
    ensures Renamed(fields, [alias]) ==
      if Has(fields, alias.wrong) && !Has(fields, alias.right)
      then (Put(Except(fields, {alias.wrong}), alias.right, Lookup(fields, alias.wrong).value), true)
      else (fields, false)
  {
    assert [alias][1..] == [];
  }

  lemma SingleAction(name: string, payload: Json)
    requires name != "done"
    ensures CoerceElement(Obj([Field(name, payload)])) == CoerceAction(name, payload)
  {
    var fields := [Field(name, payload)];
    if Has(fields, "done") {
      var i := KeyAtOf(fields, "done");
    }
  }

  lemma FlagOfAction(name: string, payload: Json)
    requires name != "done"
    ensures CoerceAction(name, payload).unfixed <==> !IsAccepted(CoerceAction(name, payload).element)
    ensures CoerceAction(name, payload).changed <==> CoerceAction(name, payload).element != Obj([Field(name, payload)])
  {
    if payload.Str? {
      FailedDoneIsAccepted(payload.text);
    } else if payload.Obj? {
      RenamedFlag(payload.fields, AliasesOf(name));
    }
  }

  lemma FlagOfDone(fields: seq<Field>)
    requires Has(fields, "done")
    ensures (CoerceDoneElement(fields).unfixed <==> !IsAccepted(CoerceDoneElement(fields).element))
            <==> !IsUnnoticed(Obj(fields))
  {
    var done := Lookup(fields, "done").value;
    var i := KeyAtOf(fields, "done");
    if done.Obj? {
      DoneKeepsDeclared(done.fields);
      ExceptEmpty(done.fields, DONE_DECLARED_FIELDS);
    }
    assert ACTION_REQUIRED_FIELDS["done"] == ["text"];
    assert done.Obj? ==> (HasAll(done.fields, ["text"]) <==> Has(done.fields, ["text"][0]));
    if CoerceDone(done).Some? {
      var coerced := CoerceDone(done).value;
      CleanBranchIsDead(done);
      PutInPlace(fields, "done", coerced);
      LookupPut(fields, "done", coerced, "done");
      ExceptEmpty(coerced.fields, DONE_DECLARED_FIELDS);
    }
  }

  /** An element reports a change exactly when it comes back different. */
  lemma ChangedExactly(elem: Json)
    ensures CoerceElement(elem).changed <==> CoerceElement(elem).element != elem
  {
    if elem.Obj? && Has(elem.fields, "done") {
      var done := Lookup(elem.fields, "done").value;
      if CoerceDone(done).Some? {
        var coerced := CoerceDone(done).value;
        CleanBranchIsDead(done);
        LookupPut(elem.fields, "done", coerced, "done");
        if done.Obj? {
          DoneKeepsDeclared(done.fields);
        }
      }
    } else if elem.Obj? && |elem.fields| == 1 {
      var Field(name, payload) := elem.fields[0];
      assert Has([Field("done", Null)], "done");
      FlagOfAction(name, payload);
      assert elem == Obj([Field(name, payload)]);
    }
  }

  predicate IsUnwrappedText(fields: seq<Field>) {
    |fields| == 1 && fields[0].key == "text" && fields[0].value.Str?
  }

  /** Bar the unwrapped text of a done(), every key stays where it was, and so does whatever stands beside a done(). */
  lemma ActionNeverSwapped(fields: seq<Field>)
    requires !IsUnwrappedText(fields)
    ensures var r := CoerceElement(Obj(fields)).element;
      && r.Obj? && |r.fields| == |fields|
      && (forall i :: 0 <= i < |fields| ==> r.fields[i].key == fields[i].key)
      && (forall i :: 0 <= i < |fields| && Has(fields, "done") && fields[i].key != "done" ==> r.fields[i] == fields[i])
  {
    if Has(fields, "done") && CoerceDone(Lookup(fields, "done").value).Some? {
      PutInPlace(fields, "done", CoerceDone(Lookup(fields, "done").value).value);
    }
  }

  /** A rewritten action carries the misnamed field's value under the declared name and all other fields as they were. */
  lemma RenameMovesOneValue(name: string, fields: seq<Field>, k: string)
    requires name != "done" && CoerceAction(name, Obj(fields)).changed
    ensures |AliasesOf(name)| == 1
    ensures var Alias(wrong, right) := AliasesOf(name)[0];
      var r := CoerceAction(name, Obj(fields)).element;
      && r.Obj? && r.fields[0].key == name && r.fields[0].value.Obj?
      && Has(fields, wrong) && !Has(fields, right)
      && Lookup(r.fields[0].value.fields, k) ==
         if k == right then Lookup(fields, wrong) else if k == wrong then None else Lookup(fields, k)
  {
    RenamedFlag(fields, AliasesOf(name));
    var Alias(wrong, right) := AliasesOf(name)[0];
    RenamedOne(fields, AliasesOf(name)[0]);
    if Has(fields, wrong) {
      LookupPut(Except(fields, {wrong}), right, Lookup(fields, wrong).value, k);
    }
    LookupExcept(fields, {wrong}, k);
  }

  /** An action with its field under the name the models use for it, and all else it requires. */
  predicate IsMisnamed(name: string, fields: seq<Field>, wrong: string, right: string) {
    && Has(fields, wrong) && !Has(fields, right)
    && (|| (name == "input" && wrong == "value" && right == "text" && Has(fields, "index"))
        || (name == "extract" && wrong == "prompt" && right == "query")
        || (name == "search_page" && wrong == "query" && right == "pattern"))
  }

  /** Such an action ends accepted, with the value under the declared name. */
  lemma MisnamedIsRepaired(name: string, fields: seq<Field>, wrong: string, right: string)
    requires IsMisnamed(name, fields, wrong, right)
    ensures var r := CoerceElement(Obj([Field(name, Obj(fields))]));
      && r.changed && !r.unfixed && IsAccepted(r.element)
      && Lookup(r.element.fields[0].value.fields, right) == Lookup(fields, wrong)
  {
    hide Lookup;
    var required := ACTION_REQUIRED_FIELDS[name];
    SingleAction(name, Obj(fields));
    RenamedOne(fields, Alias(wrong, right));
    var value := Lookup(fields, wrong).value;
    var out := Put(Except(fields, {wrong}), right, value);
    forall k ensures Has(out, k) <==> k == right || (k != wrong && Has(fields, k)) {
      LookupPut(Except(fields, {wrong}), right, value, k);
      LookupExcept(fields, {wrong}, k);
    }
    LookupPut(Except(fields, {wrong}), right, value, right);
    assert right in required && !HasAll(fields, required);
    assert HasAll(out, required);
  }

  /** A done() to be rewritten, prose or with undeclared fields, that has a key beside it. */
  predicate IsRewrittenBesideKey(elem: Json) {
    && elem.Obj? && Has(elem.fields, "done") && |elem.fields| > 1
    && var done := Lookup(elem.fields, "done").value;
    && (done.Str? || (done.Obj? && Except(done.fields, DONE_DECLARED_FIELDS) != []))
  }

  /**
   Repairing twice repairs no more than once. The flag is not as stable: a done() rewritten beside another key, and
   nothing else, is counted the first time and passes unnoticed the second.
   */
  lemma CoercedTwice(elem: Json)
    ensures var once := CoerceElement(elem);
      var twice := CoerceElement(once.element);
      && twice.element == once.element && !twice.changed
      && (twice.unfixed == once.unfixed <==> !IsRewrittenBesideKey(elem))
  {
    if elem.Str? {
      FailedDoneTwice(elem.text);
    } else if elem.Obj? && Has(elem.fields, "done") {
      DoneTwice(elem.fields);
    } else if elem.Obj? && |elem.fields| == 1 {
      var Field(name, payload) := elem.fields[0];
      assert elem == Obj([Field(name, payload)]);
      SingleAction(name, payload);
      ActionTwice(name, payload);
    }
  }

  lemma ActionTwice(name: string, payload: Json)
    requires name != "done"
    ensures var once := CoerceAction(name, payload);
      CoerceElement(once.element) == Outcome(once.element, false, once.unfixed) && !(once.changed && once.unfixed)
  {
    var once := CoerceAction(name, payload);
    SingleAction(name, payload);
    if once.element.Obj? && |once.element.fields| == 1 {
      SingleAction(name, once.element.fields[0].value);
    }
    if payload.Str? {
      FailedDoneTwice(payload.text);
    } else if payload.Obj? {
      RenamedFlag(payload.fields, AliasesOf(name));
    }
  }

  lemma FailedDoneTwice(text: string)
    ensures CoerceElement(FailedDone(text)) == Outcome(FailedDone(text), false, false)
  {
    ExceptEmpty(FailedDone(text).fields[0].value.fields, DONE_DECLARED_FIELDS);
  }

  lemma DoneTwice(fields: seq<Field>)
    requires Has(fields, "done")
    ensures var once := CoerceDoneElement(fields);
      var twice := CoerceElement(once.element);
      && twice.element == once.element && !twice.changed
      && (twice.unfixed == once.unfixed <==> !IsRewrittenBesideKey(Obj(fields)))
  {
    var done := Lookup(fields, "done").value;
    if done.Obj? {
      DoneKeepsDeclared(done.fields);
      ExceptEmpty(done.fields, DONE_DECLARED_FIELDS);
    }
    if CoerceDone(done).Some? {
      var coerced := CoerceDone(done).value;
      CleanBranchIsDead(done);
      LookupPut(fields, "done", coerced, "done");
      ExceptEmpty(coerced.fields, DONE_DECLARED_FIELDS);
    }
  }

  function ProseOf(elem: Json): Option<string> {
    match elem
    case Str(text) => Some(text)
    case Obj(fields) =>
      if Has(fields, "done") && Lookup(fields, "done").value.Str? then Some(Lookup(fields, "done").value.text)
      else if IsUnwrappedText(fields) then Some(fields[0].value.text)
      else None
    case _ => None
  }

  /**
   Prose becomes a done() with that very text. It says success = false exactly when the done wrapper was added here;
   prose the model had put under `done` gets no success field, and the library's default for it is true.
   */
  lemma ProseFailsClosedExactly(elem: Json)
    requires ProseOf(elem).Some?
    ensures var r := CoerceElement(elem);
      && r.changed && r.element.Obj? && Has(r.element.fields, "done")
      && var done := Lookup(r.element.fields, "done").value;
      && done.Obj?
      && Lookup(done.fields, "text") == Some(Str(ProseOf(elem).value))
      && Lookup(done.fields, "success") ==
         if elem.Obj? && Has(elem.fields, "done") then None else Some(Bool(false))
  {
    if elem.Obj? && Has(elem.fields, "done") {
      var done := Lookup(elem.fields, "done").value;
      var i := KeyAtOf(elem.fields, "done");
      CleanBranchIsDead(done);
      LookupPut(elem.fields, "done", CoerceDone(done).value, "done");
    }
  }

  // ------------------------------------------------------------ the action list

  function CoerceAll(actions: seq<Json>): seq<Json> {
    seq(|actions|, i requires 0 <= i < |actions| => CoerceElement(actions[i]).element)
  }

  function Count(actions: seq<Json>, p: Json -> bool): nat {
    if actions == [] then 0
    else Count(actions[..|actions| - 1], p) + if p(actions[|actions| - 1]) then 1 else 0
  }

  predicate IsChanged(elem: Json) {
    CoerceElement(elem).changed
  }

  predicate IsUnfixed(elem: Json) {
    CoerceElement(elem).unfixed
  }

  predicate EndsAccepted(elem: Json) {
    IsAccepted(CoerceElement(elem).element)
  }

  /** Every element ends accepted, counted as uncoerced, or unnoticed: the residual counter is short by the last. */
  lemma {:induction false} EveryElementAccountedFor(actions: seq<Json>)
    ensures Count(actions, EndsAccepted) + Count(actions, IsUnfixed) + Count(actions, IsUnnoticed) == |actions|
  {
    if actions != [] {
      EveryElementAccountedFor(actions[..|actions| - 1]);
      UnnoticedIsNeither(actions[|actions| - 1]);
    }
  }

  lemma UnnoticedIsNeither(elem: Json)
    ensures IsUnnoticed(elem) ==> !IsUnfixed(elem) && !EndsAccepted(elem)
    ensures !IsUnnoticed(elem) ==> (IsUnfixed(elem) <==> !EndsAccepted(elem))
  {
    FlagIsExact(elem);
  }

  lemma {:induction false} NoneChanged(actions: seq<Json>)
    ensures Count(actions, IsChanged) == 0 <==> CoerceAll(actions) == actions
  {
    if actions != [] {
      var front, last := actions[..|actions| - 1], actions[|actions| - 1];
      NoneChanged(front);
      ChangedExactly(last);
      assert CoerceAll(actions)[..|actions| - 1] == CoerceAll(front);
      assert CoerceAll(actions) == CoerceAll(front) + [CoerceElement(last).element];
      assert actions == front + [last];
    }
  }

  lemma CoercedAllTwice(actions: seq<Json>)
    ensures CoerceAll(CoerceAll(actions)) == CoerceAll(actions)
  {
    forall i | 0 <= i < |actions|
      ensures CoerceAll(CoerceAll(actions))[i] == CoerceAll(actions)[i]
    {
      CoercedTwice(actions[i]);
    }
  }

  /** The action list a text denotes, where it denotes an object with one. */
  function ActionsIn(content: string): Option<seq<Json>> {
    if Loads(content).None? || !Loads(content).value.Obj? then None
    else match Lookup(Loads(content).value.fields, "action")
      case Some(Arr(actions)) => Some(actions)
      case _ => None
  }

  /** The action list of a completion, looked for only where the key is spelled out. */
  function ActionsOf(content: string): Option<seq<Json>> {
    if Within("\"action\"", content) then ActionsIn(content) else None
  }

  function ActionList(content: string): seq<Json> {
    match ActionsOf(content)
    case Some(actions) => actions
    case None => []
  }

  function Repaired(content: string): Json
    requires ActionsOf(content).Some?
  {
    Obj(Put(Loads(content).value.fields, "action", Arr(CoerceAll(ActionsOf(content).value))))
  }

  /** The text is replaced only when some element of its action list comes back different. */
  function Reshaped(content: string): string {
    match ActionsOf(content)
    case Some(actions) => if CoerceAll(actions) == actions then content else Dumps(Repaired(content))
    case None => content
  }

  /** Only the action list changes, element by element. */
  lemma OnlyActionsChange(content: string, key: string)
    requires ActionsOf(content).Some?
    ensures var was := Loads(content).value.fields;
      var now := Repaired(content).fields;
      && |now| == |was|
      && (forall i :: 0 <= i < |was| ==> now[i].key == was[i].key)
      && Lookup(now, key) ==
         if key == "action" then Some(Arr(CoerceAll(ActionsOf(content).value))) else Lookup(was, key)
  {
    var was := Loads(content).value.fields;
    var actions := Arr(CoerceAll(ActionsOf(content).value));
    PutInPlace(was, "action", actions);
    LookupPut(was, "action", actions, key);
  }

  lemma DoneWellFormed(done: Json)
    requires WellFormed(done) && CoerceDone(done).Some?
    ensures WellFormed(CoerceDone(done).value)
  {
    hide Lookup, DoneText;
    match done
    case Str(text) => SingleIsWellFormed("text", done);
    case Obj(fields) =>
      FilteredWellFormed(fields, DONE_DECLARED_FIELDS);
      var collapsed := DoneText(Obj(Except(fields, DONE_DECLARED_FIELDS)));
      if collapsed.Some? {
        PutWellFormed(Only(fields, DONE_DECLARED_FIELDS), "text", Str(collapsed.value));
      }
  }

  lemma {:induction false} RenamedWellFormed(fields: seq<Field>, aliases: seq<Alias>)
    requires WellFormedFields(fields)
    ensures WellFormedFields(Renamed(fields, aliases).0)
    decreases aliases
  {
    hide WellFormed, WellFormedFields, Lookup;
    if aliases != [] {
      var Alias(wrong, right) := aliases[0];
      if Has(fields, wrong) && !Has(fields, right) {
        FoundIsWellFormed(fields, wrong);
        FilteredWellFormed(fields, {wrong});
        PutWellFormed(Except(fields, {wrong}), right, Lookup(fields, wrong).value);
        RenamedWellFormed(Put(Except(fields, {wrong}), right, Lookup(fields, wrong).value), aliases[1..]);
      } else {
        RenamedWellFormed(fields, aliases[1..]);
      }
    }
  }

  lemma FailedDoneWellFormed(text: string)
    ensures WellFormed(FailedDone(text))
  {
    assert WellFormedFields([Field("text", Str(text)), Field("success", Bool(false))]);
    SingleIsWellFormed("done", FailedDone(text).fields[0].value);
  }

  lemma RepairWellFormed(elem: Json)
    requires WellFormed(elem)
    ensures WellFormed(CoerceElement(elem).element)
  {
    hide CoerceDone, Renamed, AliasesOf, Lookup, WellFormed, WellFormedFields;
    match elem
    case Str(text) => FailedDoneWellFormed(text);
    case Obj(fields) =>
      ObjectIsWellFormed(fields);
      if Has(fields, "done") {
        var done := Lookup(fields, "done").value;
        FoundIsWellFormed(fields, "done");
        if CoerceDone(done).Some? {
          DoneWellFormed(done);
          PutWellFormed(fields, "done", CoerceDone(done).value);
          ObjectIsWellFormed(Put(fields, "done", CoerceDone(done).value));
        }
      } else if |fields| == 1 {
        ActionWellFormed(fields);
      }
    case _ =>
  }

  lemma ActionWellFormed(fields: seq<Field>)
    requires |fields| == 1 && WellFormedFields(fields)
    ensures WellFormed(CoerceAction(fields[0].key, fields[0].value).element)
  {
    hide Renamed, AliasesOf, Lookup, HasAll, WellFormed;
    var Field(name, payload) := fields[0];
    SingleIsWellFormed(name, payload);
    if payload.Str? {
      FailedDoneWellFormed(payload.text);
    } else if payload.Obj? {
      ObjectIsWellFormed(payload.fields);
      RenamedWellFormed(payload.fields, AliasesOf(name));
      ObjectIsWellFormed(Renamed(payload.fields, AliasesOf(name)).0);
      SingleIsWellFormed(name, Obj(Renamed(payload.fields, AliasesOf(name)).0));
    }
  }

  /**
   The text that is returned denotes the repaired value, whether it was rewritten or left alone; a reader finds there
   the repaired action list, and spelled out, as it is looked for.
   */
  lemma TextHoldsRepair(content: string)
    requires ActionsOf(content).Some?
    ensures Loads(Reshaped(content)) == Some(Repaired(content))
    ensures ActionsOf(Reshaped(content)) == Some(CoerceAll(ActionsOf(content).value))
  {
    hide Loads, DumpsFields, CoerceElement, WellFormed, WellFormedFields, Within;
    var fields := Loads(content).value.fields;
    var actions := ActionsOf(content).value;
    OnlyActionsChange(content, "action");
    if CoerceAll(actions) == actions {
      PutSame(fields, "action");
    } else {
      LoadsWellFormed(content);
      ObjectIsWellFormed(fields);
      RepairedListWellFormed(fields, actions);
      LoadsDumps(Repaired(content));
      KeyIsSpelledOut(Repaired(content).fields);
      WithinAround("\"action\"", "{", DumpsFields(Repaired(content).fields), "}");
    }
  }

  lemma RepairedListWellFormed(fields: seq<Field>, actions: seq<Json>)
    requires WellFormedFields(fields) && Lookup(fields, "action") == Some(Arr(actions))
    ensures WellFormed(Obj(Put(fields, "action", Arr(CoerceAll(actions)))))
  {
    hide CoerceElement, Lookup, Put, WellFormedFields;
    FoundIsWellFormed(fields, "action");
    forall i | 0 <= i < |actions| ensures WellFormed(CoerceAll(actions)[i]) {
      RepairWellFormed(actions[i]);
    }
    PutWellFormed(fields, "action", Arr(CoerceAll(actions)));
    ObjectIsWellFormed(Put(fields, "action", Arr(CoerceAll(actions))));
  }

  lemma WithinAround(part: string, before: string, s: string, after: string)
    requires Within(part, s)
    ensures Within(part, before + s + after)
  {
    var i :| 0 <= i <= |s| && part <= s[i..];
    assert (before + s + after)[|before| + i..] == s[i..] + after;
  }

  /** An object's text spells out its keys. */
  lemma {:induction false} KeyIsSpelledOut(fields: seq<Field>)
    requires Has(fields, "action")
    ensures Within("\"action\"", DumpsFields(fields))
  {
    hide Dumps, Within;
    var value := Dumps(fields[0].value);
    if fields[0].key == "action" {
      PlainEscaped();
      WithinItself("\"action\"", ": " + value);
      WithinAround("\"action\"", "", "\"action\"" + (": " + value), if |fields| == 1 then "" else ", " + DumpsFields(fields[1..]));
      Spelled(value, if |fields| == 1 then "" else ", " + DumpsFields(fields[1..]));
    } else {
      KeyIsSpelledOut(fields[1..]);
      WithinAround("\"action\"", "\"" + Escaped(fields[0].key) + "\": " + value + ", ", DumpsFields(fields[1..]), "");
      Trailing("\"" + Escaped(fields[0].key) + "\": " + value, DumpsFields(fields[1..]));
    }
  }

  lemma WithinItself(part: string, after: string)
    ensures Within(part, part + after)
  {
    assert part <= (part + after)[0..];
  }

  lemma Spelled(value: string, after: string)
    ensures "\"" + "action" + "\": " + value + after == "" + ("\"action\"" + (": " + value)) + after
  {
  }

  lemma Trailing(first: string, later: string)
    ensures first + (", " + later) == first + ", " + later + ""
  {
  }

  lemma PlainEscaped()
    ensures Escaped("action") == "action"
  {
    assert Escaped("") == "" && Escaped("n") == "n" && Escaped("on") == "on";
    assert Escaped("ion") == "ion" && Escaped("tion") == "tion" && Escaped("ction") == "ction";
  }

  /** A completion that has been repaired is left alone. */
  lemma ReshapedTwice(content: string)
    ensures Reshaped(Reshaped(content)) == Reshaped(content)
  {
    hide Loads, Dumps, CoerceElement, Within;
    if ActionsOf(content).Some? {
      TextHoldsRepair(content);
      CoercedAllTwice(ActionsOf(content).value);
    }
  }

  /** In the text that is returned, prose that came without a done() stands as a done() that failed. */
  lemma ProseFailsInText(content: string, i: nat)
    requires ActionsOf(content).Some? && i < |ActionsOf(content).value|
    requires var elem := ActionsOf(content).value[i];
      ProseOf(elem).Some? && !(elem.Obj? && Has(elem.fields, "done"))
    ensures var prose := ProseOf(ActionsOf(content).value[i]).value;
      && ActionsOf(Reshaped(content)).Some? && i < |ActionsOf(Reshaped(content)).value|
      && var r := ActionsOf(Reshaped(content)).value[i];
      && r.Obj? && Lookup(r.fields, "done").Some?
      && var done := Lookup(r.fields, "done").value;
      && done.Obj? && Lookup(done.fields, "success") == Some(Bool(false))
      && Lookup(done.fields, "text") == Some(Str(prose))
  {
    hide Loads, Dumps, CoerceElement, Within, Reshaped;
    TextHoldsRepair(content);
    ProseFailsClosedExactly(ActionsOf(content).value[i]);
  }

  class DoneShapeCounter {
    var seen: nat
    var coerced: nat
    var uncoerced: nat

    constructor ()
      ensures seen == 0 && coerced == 0 && uncoerced == 0
    {
      seen, coerced, uncoerced := 0, 0, 0;
    }

    method Record(seen: nat, coerced: nat, uncoerced: nat)
      modifies this
      ensures this.seen == old(this.seen) + seen
      ensures this.coerced == old(this.coerced) + coerced
      ensures this.uncoerced == old(this.uncoerced) + uncoerced
    {
      this.seen := this.seen + seen;
      this.coerced := this.coerced + coerced;
      this.uncoerced := this.uncoerced + uncoerced;
    }
  }

  method CoerceActions(items: seq<Json>)
    returns (actions: seq<Json>, changed: bool, seen: nat, coerced: nat, uncoerced: nat)
    ensures actions == CoerceAll(items)
    ensures changed <==> actions != items
    ensures seen == |items| && coerced == Count(items, IsChanged) && uncoerced == Count(items, IsUnfixed)
  {
    hide CoerceElement;
    actions := items;
    changed, seen, coerced, uncoerced := false, 0, 0, 0;
    for index := 0 to |items|
      invariant |actions| == |items| && seen == index
      invariant forall k :: 0 <= k < index ==> actions[k] == CoerceElement(items[k]).element
      invariant forall k :: index <= k < |items| ==> actions[k] == items[k]
      invariant coerced == Count(items[..index], IsChanged) && (changed <==> coerced > 0)
      invariant uncoerced == Count(items[..index], IsUnfixed)
    {
      assert items[..index + 1][..index] == items[..index];
      ChangedExactly(items[index]);
      seen := seen + 1;
      var Outcome(fixed, elemChanged, unfixed) := CoerceElement(actions[index]);
      if elemChanged {
        actions := actions[index := fixed];
        coerced := coerced + 1;
        changed := true;
      }
      if unfixed {
        uncoerced := uncoerced + 1;
      }
    }
    assert items[..|items|] == items;
    NoneChanged(items);
  }

  method CoerceDoneShape(content: string, counter: DoneShapeCounter)
    returns (r: string)
    modifies counter
    ensures r == Reshaped(content)
    ensures var actions := ActionList(content);
      && counter.seen == old(counter.seen) + |actions|
      && counter.coerced == old(counter.coerced) + Count(actions, IsChanged)
      && counter.uncoerced == old(counter.uncoerced) + Count(actions, IsUnfixed)
  {
    hide CoerceElement, CoerceAll, Dumps, Loads;
    if !Within("\"action\"", content) {
      return content;
    }
    var parsed := Loads(content);
    if parsed.None? || !parsed.value.Obj? {
      return content;
    }
    var found := Lookup(parsed.value.fields, "action");
    if found.None? || !found.value.Arr? {
      return content;
    }
    var actions, changed, seen, coerced, uncoerced := CoerceActions(found.value.items);
    counter.Record(seen, coerced, uncoerced);
    if !changed {
      return content;
    }
    r := Dumps(Obj(Put(parsed.value.fields, "action", Arr(actions))));
  }
}
