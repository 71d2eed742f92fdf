/**
  * The decision logic of the group-set selector of an assignment form: which group set counts as
  * selected, the flags the form template is rendered with, how the submitted form data is
  * cleaned up, and which validation error a missing group set produces.
  */
module GroupCategorySelector {
  import opened Wrappers
  import opened Digits

  // ---------------------------------------------------------------- JavaScript values

  /** The JavaScript values the selector reads: ids, flags and labels. */
  datatype JsValue = Undefined | Null | Bool(b: bool) | Number(n: int) | Str(s: string)

  /** JavaScript truthiness. */
  predicate Truthy(v: JsValue) {
    match v
    case Undefined => false
    case Null => false
    case Bool(b) => b
    case Number(n) => n != 0
    case Str(s) => s != []
  }

  /** `v == null`: loose equality with null holds for null and undefined alike. */
  predicate IsNullish(v: JsValue) {
    v.Undefined? || v.Null?
  }

  /** `v.toString()`, defined for every value that is neither null nor undefined. */
  function IdText(v: JsValue): (s: string)
    requires !IsNullish(v)
    ensures v.Str? ==> s == v.s
    ensures v.Number? ==> ParseInt(s) == Some(v.n)
  {
    match v
    case Bool(b) => if b then "true" else "false"
    case Number(n) => IntTextRoundTrip(n); IntToText(n)
    case Str(s) => s
  }

  /** The placeholder options of the group-set menu, which name no group set. */
  predicate IsPlaceholder(id: JsValue) {
    id == Str("blank") || id == Str("new")
  }

  // ---------------------------------------------------------------- inputs

  /** A group set offered in the menu; ids arrive as strings. */
  datatype GroupCategory = GroupCategory(id: string, name: string)

  /** An assignment override; only the group set it belongs to matters here. */
  datatype Override = Override(id: int, groupCategoryId: JsValue)

  /** What the selector reads from the assignment it edits. */
  datatype ParentModel = ParentModel(
    groupCategoryId: JsValue,
    frozenAttributes: Option<seq<string>>,
    canGroup: JsValue,
    gradeGroupStudentsIndividually: JsValue,
    overrides: Option<seq<Override>>)

  /** The selector's options and the page environment's permissions. */
  datatype Options = Options(
    groupCategories: seq<GroupCategory>,
    nested: JsValue,
    hideGradeIndividually: JsValue,
    sectionLabel: JsValue,
    fieldLabel: JsValue,
    lockedMessage: JsValue,
    inClosedGradingPeriod: JsValue,
    showNewErrors: JsValue,
    permissions: Option<map<string, JsValue>>)

  // ---------------------------------------------------------------- permissions

  const CanManageGroupsKey: string := "can_manage_groups"

  /** `canManageGroups`: the permission's own value when present, `true` when it is absent. */
  function CanManageGroups(permissions: Option<map<string, JsValue>>): (r: JsValue)
    ensures permissions.None? || CanManageGroupsKey !in permissions.value ==> r == Bool(true)
    ensures permissions.Some? && CanManageGroupsKey in permissions.value ==>
      r == permissions.value[CanManageGroupsKey]
  {
    if permissions.Some? && CanManageGroupsKey in permissions.value then
      permissions.value[CanManageGroupsKey]
    else Bool(true)
  }

  /** Only a present permission can deny group management. */
  lemma CannotManageOnlyWhenDenied(permissions: Option<map<string, JsValue>>)
    ensures permissions.None? || CanManageGroupsKey !in permissions.value ==>
      CanManageGroups(permissions) == Bool(true)
    ensures !Truthy(CanManageGroups(permissions)) <==>
      permissions.Some? && CanManageGroupsKey in permissions.value &&
      !Truthy(permissions.value[CanManageGroupsKey])
  {
  }

  // ---------------------------------------------------------------- lookups

  /** `chain(groupCategories).map('id')`. */
  function IdsOf(cats: seq<GroupCategory>): (ids: seq<string>)
    ensures |ids| == |cats|
    ensures forall i :: 0 <= i < |cats| ==> ids[i] == cats[i].id
  {
    if cats == [] then [] else [cats[0].id] + IdsOf(cats[1..])
  }

  /** `find(groupCategories, {id: text})`: the first group set with that id. */
  function FindCategory(cats: seq<GroupCategory>, text: string): (r: Option<nat>)
    ensures r.Some? ==> r.value < |cats| && cats[r.value].id == text
    ensures r.Some? ==> forall j :: 0 <= j < r.value ==> cats[j].id != text
    ensures r.None? <==> forall j :: 0 <= j < |cats| ==> cats[j].id != text
  {
    if cats == [] then None
    else if cats[0].id == text then Some(0)
    else match FindCategory(cats[1..], text)
      case None => None
      case Some(i) => Some(i + 1)
  }

  /** Finding a group set by id and listing the ids agree on whether the id is there. */
  lemma {:induction false} FindAgreesWithIds(cats: seq<GroupCategory>, text: string)
    ensures FindCategory(cats, text).Some? <==> text in IdsOf(cats)
  {
    var ids := IdsOf(cats);
    if text in ids {
      var i :| 0 <= i < |ids| && ids[i] == text;
      assert cats[i].id == text;
    }
  }

  /** The group set `render` hands to the student-group store, or none. */
  function RenderSelection(cats: seq<GroupCategory>, selectedId: JsValue): (r: Option<JsValue>)
    ensures r.Some? <==>
      |cats| > 0 && !IsNullish(selectedId) && exists j :: 0 <= j < |cats| && cats[j].id == IdText(selectedId)
    ensures r.Some? ==> r.value == selectedId
  {
    if |cats| == 0 then None
    else if IsNullish(selectedId) || FindCategory(cats, IdText(selectedId)).None? then None
    else Some(selectedId)
  }

  /** `hasGroupOverrides`: the first override of the given group set, undefined for a falsy id. */
  function HasGroupOverrides(overrides: Option<seq<Override>>, selectedId: JsValue): (r: Option<Override>)
    ensures !Truthy(selectedId) || overrides.None? ==> r.None?
    ensures r.Some? ==> r.value in overrides.value && r.value.groupCategoryId == selectedId
    ensures Truthy(selectedId) && overrides.Some? ==>
      (r.None? <==> forall j :: 0 <= j < |overrides.value| ==> overrides.value[j].groupCategoryId != selectedId)
  {
    if !Truthy(selectedId) || overrides.None? then None
    else match FirstOverride(overrides.value, selectedId)
      case None => None
      case Some(i) => Some(overrides.value[i])
  }

  /** Position of the first override belonging to group set `id`. */
  function FirstOverride(os: seq<Override>, id: JsValue): (r: Option<nat>)
    ensures r.Some? ==> r.value < |os| && os[r.value].groupCategoryId == id
    ensures r.Some? ==> forall j :: 0 <= j < r.value ==> os[j].groupCategoryId != id
    ensures r.None? <==> forall j :: 0 <= j < |os| ==> os[j].groupCategoryId != id
  {
    if os == [] then None
    else if os[0].groupCategoryId == id then Some(0)
    else match FirstOverride(os[1..], id)
      case None => None
      case Some(i) => Some(i + 1)
  }

  /** The override found is the first of its group set: none before it belongs to that set. */
  lemma {:induction false} HasGroupOverridesFirst(overrides: seq<Override>, selectedId: JsValue)
    requires Truthy(selectedId)
    ensures var r := HasGroupOverrides(Some(overrides), selectedId);
      r.Some? ==> exists i :: (0 <= i < |overrides| && overrides[i] == r.value &&
        forall j :: 0 <= j < i ==> overrides[j].groupCategoryId != selectedId)
  {
    var f := FirstOverride(overrides, selectedId);
    if f.Some? {
      assert overrides[f.value] == HasGroupOverrides(Some(overrides), selectedId).value;
    }
  }

  // ---------------------------------------------------------------- toJSON

  /** The flags and labels the selector's template is rendered with. */
  datatype ViewJson = ViewJson(
    isGroupAssignment: JsValue,
    groupCategoryId: JsValue,
    groupCategories: seq<GroupCategory>,
    groupCategoryUnselected: bool,
    hideGradeIndividually: JsValue,
    gradeGroupStudentsIndividually: JsValue,
    groupCategoryLocked: bool,
    hasGroupCategoryDisabled: bool,
    gradeIndividuallyDisabled: bool,
    groupCategoryIdDisabled: bool,
    sectionLabel: JsValue,
    fieldLabel: JsValue,
    lockedMessage: JsValue,
    nested: JsValue,
    prefix: JsValue,
    inClosedGradingPeriod: JsValue,
    cannotManageGroups: bool)

  /** `a && b` on JavaScript values: `a` when it is falsy, `b` otherwise. */
  function JsAnd(a: JsValue, b: JsValue): (r: JsValue)
    ensures Truthy(r) <==> Truthy(a) && Truthy(b)
  {
    if Truthy(a) then b else a
  }

  /** `id && id !== 'blank' && id !== 'new'`, with the value JavaScript gives it. */
  function IsGroupAssignment(id: JsValue): (r: JsValue)
    ensures Truthy(r) <==> Truthy(id) && !IsPlaceholder(id)
  {
    JsAnd(JsAnd(id, Bool(id != Str("blank"))), Bool(id != Str("new")))
  }

  /** No group set counts as chosen: none named, a placeholder, or one not on the non-empty menu. */
  predicate Unselected(cats: seq<GroupCategory>, id: JsValue) {
    !Truthy(id) || id == Str("blank") || id == Str("new") ||
    (IdText(id) !in IdsOf(cats) && |cats| > 0)
  }

  const GroupCategoryIdAttribute: string := "group_category_id"

  function ToJson(model: ParentModel, opts: Options): (r: ViewJson)
    ensures Truthy(r.isGroupAssignment) <==> Truthy(model.groupCategoryId) && !IsPlaceholder(model.groupCategoryId)
    ensures r.hasGroupCategoryDisabled == r.groupCategoryIdDisabled
    ensures r.hasGroupCategoryDisabled <==>
      (model.frozenAttributes.Some? && GroupCategoryIdAttribute in model.frozenAttributes.value) ||
      !Truthy(model.canGroup)
    ensures r.gradeIndividuallyDisabled <==>
      model.frozenAttributes.Some? && GroupCategoryIdAttribute in model.frozenAttributes.value
    ensures r.groupCategoryLocked <==> !Truthy(model.canGroup)
    ensures r.hasGroupCategoryDisabled <==> r.gradeIndividuallyDisabled || r.groupCategoryLocked
    ensures Truthy(opts.hideGradeIndividually) ==> !Truthy(r.gradeGroupStudentsIndividually)
    ensures !Truthy(opts.hideGradeIndividually) ==>
      r.gradeGroupStudentsIndividually == model.gradeGroupStudentsIndividually
    ensures r.cannotManageGroups <==> !Truthy(CanManageGroups(opts.permissions))
    ensures Truthy(r.prefix) <==> Truthy(opts.nested)
    ensures r.groupCategoryId == model.groupCategoryId && r.groupCategories == opts.groupCategories
    ensures r.hideGradeIndividually == opts.hideGradeIndividually && r.nested == opts.nested
    ensures r.sectionLabel == opts.sectionLabel && r.fieldLabel == opts.fieldLabel &&
      r.lockedMessage == opts.lockedMessage && r.inClosedGradingPeriod == opts.inClosedGradingPeriod
  {
    var frozen := if model.frozenAttributes.Some? then model.frozenAttributes.value else [];
    var groupCategoryFrozen := GroupCategoryIdAttribute in frozen;
    var groupCategoryLocked := !Truthy(model.canGroup);
    var id := model.groupCategoryId;
    ViewJson(
      isGroupAssignment := IsGroupAssignment(id),
      groupCategoryId := id,
      groupCategories := opts.groupCategories,
      groupCategoryUnselected := Unselected(opts.groupCategories, id),
      hideGradeIndividually := opts.hideGradeIndividually,
      gradeGroupStudentsIndividually := JsAnd(Bool(!Truthy(opts.hideGradeIndividually)), model.gradeGroupStudentsIndividually),
      groupCategoryLocked := groupCategoryLocked,
      hasGroupCategoryDisabled := groupCategoryFrozen || groupCategoryLocked,
      gradeIndividuallyDisabled := groupCategoryFrozen,
      groupCategoryIdDisabled := groupCategoryFrozen || groupCategoryLocked,
      sectionLabel := opts.sectionLabel,
      fieldLabel := opts.fieldLabel,
      lockedMessage := opts.lockedMessage,
      nested := opts.nested,
      prefix := if Truthy(opts.nested) then Str("assignment") else Undefined,
      inClosedGradingPeriod := opts.inClosedGradingPeriod,
      cannotManageGroups := !Truthy(CanManageGroups(opts.permissions)))
  }

  /**
    * `groupCategoryUnselected` is the negation of `isGroupAssignment`, widened by a chosen id
    * that is missing from a non-empty menu.
    */
  lemma UnselectedFlag(model: ParentModel, opts: Options)
    ensures var r := ToJson(model, opts);
      r.groupCategoryUnselected <==>
        !Truthy(r.isGroupAssignment) ||
        (|opts.groupCategories| > 0 && forall j :: 0 <= j < |opts.groupCategories| ==>
          opts.groupCategories[j].id != IdText(model.groupCategoryId))
  {
    var id := model.groupCategoryId;
    if Truthy(id) && !IsPlaceholder(id) {
      FindAgreesWithIds(opts.groupCategories, IdText(id));
    }
  }

  /**
    * The menu and the store agree: a real group set that `render` selects is not flagged as
    * unselected, and on a non-empty menu a group set not flagged unselected is the one selected.
    */
  lemma {:induction false} SelectionAgrees(model: ParentModel, opts: Options)
    ensures var id := model.groupCategoryId;
      Truthy(id) && !IsPlaceholder(id) && RenderSelection(opts.groupCategories, id).Some? ==>
        !ToJson(model, opts).groupCategoryUnselected
    ensures var id := model.groupCategoryId;
      |opts.groupCategories| > 0 && !ToJson(model, opts).groupCategoryUnselected ==>
        RenderSelection(opts.groupCategories, id) == Some(id)
  {
    UnselectedFlag(model, opts);
  }

  // ---------------------------------------------------------------- filterFormData

  const HasGroupCategoryKey: string := "has_group_category"
  const GradeIndividuallyKey: string := "grade_group_students_individually"

  /** The form data after `filterFormData`: the checkbox field dropped, and an unchecked box clearing the group set. */
  function FilteredFormData(data: map<string, JsValue>): map<string, JsValue> {
    var dropped := data - {HasGroupCategoryKey};
    if HasGroupCategoryKey in data && data[HasGroupCategoryKey] == Str("0") then
      dropped[GroupCategoryIdAttribute := Null][GradeIndividuallyKey := Bool(false)]
    else dropped
  }

  /** What filtering does, key by key. */
  lemma FilteredFormDataKeys(data: map<string, JsValue>)
    ensures var r := FilteredFormData(data);
      HasGroupCategoryKey !in r &&
      forall k :: k != HasGroupCategoryKey && k != GroupCategoryIdAttribute && k != GradeIndividuallyKey ==>
        (k in r <==> k in data) && (k in r ==> r[k] == data[k])
    ensures var r := FilteredFormData(data);
      HasGroupCategoryKey in data && data[HasGroupCategoryKey] == Str("0") ==>
        r[GroupCategoryIdAttribute] == Null && r[GradeIndividuallyKey] == Bool(false)
    ensures var r := FilteredFormData(data);
      !(HasGroupCategoryKey in data && data[HasGroupCategoryKey] == Str("0")) ==>
        r == data - {HasGroupCategoryKey}
  {
  }

  /** Filtering twice is filtering once: the checkbox field is gone after the first pass. */
  lemma FilteredFormDataIdempotent(data: map<string, JsValue>)
    ensures FilteredFormData(FilteredFormData(data)) == FilteredFormData(data)
  {
    var r := FilteredFormData(data);
    assert HasGroupCategoryKey !in r;
    assert r - {HasGroupCategoryKey} == r;
  }

  /** The submitted form data, changed in place by `filterFormData`. */
  class FormData {
    var fields: map<string, JsValue>

    constructor (fields: map<string, JsValue>)
      ensures this.fields == fields
    {
      this.fields := fields;
    }

    method FilterFormData()
      modifies this
      ensures fields == FilteredFormData(old(fields))
    {
      var hasGroupCategory := if HasGroupCategoryKey in fields then fields[HasGroupCategoryKey] else Undefined;
      fields := fields - {HasGroupCategoryKey};
      if hasGroupCategory == Str("0") {
        fields := fields[GroupCategoryIdAttribute := Null];
        fields := fields[GradeIndividuallyKey := Bool(false)];
      }
    }
  }

  // ---------------------------------------------------------------- validation

  const SelectKey: string := "assignment_group_category_id"
  const NewGroupCategoryKey: string := "newGroupCategory"
  const CreateMessage: string := "Please create a group set"
  const PermissionMessage: string := "Group Add permission is needed to create a New Group Category"
  const SelectMessage: string := "Please select a group set for this assignment"

  /** The form data as validation sees it: the nested assignment's id, or the flat form field. */
  datatype SaveData = SaveData(assignmentGroupCategoryId: JsValue, fields: map<string, JsValue>)

  /** The group set id being saved. */
  function SavedGroupCategoryId(opts: Options, data: SaveData): JsValue {
    if Truthy(opts.nested) then data.assignmentGroupCategoryId
    else if GroupCategoryIdAttribute in data.fields then data.fields[GroupCategoryIdAttribute]
    else Undefined
  }

  /** An error to record: the field key and its one message. */
  datatype FieldError = FieldError(key: string, message: string)

  /** The error `_validateGroupCategoryID` records for a group set id, if any. */
  function GroupCategoryError(opts: Options, gcid: JsValue): Option<FieldError> {
    if !IsPlaceholder(gcid) then None
    else if |opts.groupCategories| == 0 then
      var key := if Truthy(opts.showNewErrors) then SelectKey else NewGroupCategoryKey;
      if Truthy(CanManageGroups(opts.permissions)) then Some(FieldError(key, CreateMessage))
      else Some(FieldError(key, PermissionMessage))
    else Some(FieldError(SelectKey, SelectMessage))
  }

  /** An error is recorded exactly for the placeholder options. */
  lemma ErrorOnlyForPlaceholders(opts: Options, gcid: JsValue)
    ensures GroupCategoryError(opts, gcid).Some? <==> IsPlaceholder(gcid)
  {
  }

  /**
    * The key: the menu's own field, except when there are no group sets and the older error
    * layout is in use, where the error goes beside the create button.
    */
  lemma ErrorKey(opts: Options, gcid: JsValue)
    requires IsPlaceholder(gcid)
    ensures GroupCategoryError(opts, gcid).value.key == NewGroupCategoryKey <==>
      |opts.groupCategories| == 0 && !Truthy(opts.showNewErrors)
    ensures GroupCategoryError(opts, gcid).value.key == SelectKey <==>
      |opts.groupCategories| > 0 || Truthy(opts.showNewErrors)
  {
  }

  /**
    * The message: pick a set when there are some; otherwise create one, or, lacking the
    * permission to, the permission message.
    */
  lemma ErrorMessage(opts: Options, gcid: JsValue)
    requires IsPlaceholder(gcid)
    ensures var m := GroupCategoryError(opts, gcid).value.message;
      (m == SelectMessage <==> |opts.groupCategories| > 0) &&
      (m == CreateMessage <==> |opts.groupCategories| == 0 && Truthy(CanManageGroups(opts.permissions))) &&
      (m == PermissionMessage <==> |opts.groupCategories| == 0 && !Truthy(CanManageGroups(opts.permissions)))
  {
  }

  /** The validation errors, by field, that the form collects before saving. */
  class Errors {
    var entries: map<string, seq<string>>

    constructor (entries: map<string, seq<string>>)
      ensures this.entries == entries
    {
      this.entries := entries;
    }

    /** `_validateGroupCategoryID`: record the group set error, replacing any earlier one under its key. */
    method ValidateGroupCategoryId(opts: Options, data: SaveData)
      modifies this
      ensures var e := GroupCategoryError(opts, SavedGroupCategoryId(opts, data));
        entries == (if e.Some? then old(entries)[e.value.key := [e.value.message]] else old(entries))
    {
      var gcid := SavedGroupCategoryId(opts, data);
      if gcid == Str("blank") || gcid == Str("new") {
        if |opts.groupCategories| == 0 {
          var key := if Truthy(opts.showNewErrors) then SelectKey else NewGroupCategoryKey;
          if Truthy(CanManageGroups(opts.permissions)) {
            entries := entries[key := [CreateMessage]];
          } else {
            entries := entries[key := [PermissionMessage]];
          }
        } else {
          entries := entries[SelectKey := [SelectMessage]];
        }
      }
    }

    /** `validateBeforeSave`: the group set check is the only one. */
    method ValidateBeforeSave(opts: Options, data: SaveData)
      modifies this
      ensures var e := GroupCategoryError(opts, SavedGroupCategoryId(opts, data));
        entries == (if e.Some? then old(entries)[e.value.key := [e.value.message]] else old(entries))
    {
      ValidateGroupCategoryId(opts, data);
    }
  }
}
