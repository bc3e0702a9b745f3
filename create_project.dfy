/** The project-creation form of src/app/projects/create/page.tsx: form
    validation, template selection and the project a valid submission
    produces. The form's state is a class; times are whole milliseconds. */
module CreateProject {
  import opened Js

  datatype Visibility = Private | Public

  datatype ProjectTemplate = ProjectTemplate(id: string, name: string, description: string, color: string, defaultTasks: seq<string>)

  /** The six templates the page offers. */
  const Templates: seq<ProjectTemplate> := [
    ProjectTemplate("blank", "空のプロジェクト", "ゼロから始める空のプロジェクト", "#6B7280", []),
    ProjectTemplate("web-development", "ウェブ開発", "ウェブサイト・アプリケーション開発プロジェクト", "#3B82F6",
      ["要件定義", "デザイン作成", "フロントエンド開発", "バックエンド開発", "テスト", "デプロイ"]),
    ProjectTemplate("marketing", "マーケティング", "マーケティングキャンペーン・プロモーション", "#10B981",
      ["市場調査", "ターゲット分析", "コンテンツ作成", "キャンペーン実行", "効果測定", "改善施策"]),
    ProjectTemplate("product-launch", "製品ローンチ", "新製品・サービスのローンチプロジェクト", "#F59E0B",
      ["製品企画", "開発・製造", "マーケティング戦略", "プレスリリース", "ローンチイベント", "フォローアップ"]),
    ProjectTemplate("event-planning", "イベント企画", "イベント・セミナー・会議の企画運営", "#8B5CF6",
      ["企画立案", "会場手配", "講師・ゲスト調整", "集客・宣伝", "当日運営", "事後フォロー"]),
    ProjectTemplate("research", "調査・研究", "市場調査・技術研究プロジェクト", "#EF4444",
      ["調査計画", "データ収集", "データ分析", "仮説検証", "レポート作成", "結果発表"])
  ]

  const MaxNameLength: nat := 100
  const MaxDescriptionLength: nat := 500
  const NameRequired: string := "プロジェクト名は必須です"
  const NameTooLong: string := "プロジェクト名は100文字以内で入力してください"
  const DescriptionTooLong: string := "説明は500文字以内で入力してください"

  datatype FormData = FormData(name: string, description: string, template: string, visibility: Visibility, color: string)

  const InitialForm: FormData := FormData("", "", "", Private, "#3B82F6")

  datatype ProjectData = ProjectData(
    id: string, name: string, description: string, color: string, visibility: Visibility,
    template: string, defaultTasks: seq<string>, createdBy: string, createdAt: int, updatedAt: int)

  function HasId(templateId: string): ProjectTemplate -> bool
  {
    (t: ProjectTemplate) => t.id == templateId
  }

  /** No two templates share an id. */
  predicate DistinctIds(templates: seq<ProjectTemplate>)
  {
    forall i, j | 0 <= i < j < |templates| :: templates[i].id != templates[j].id
  }

  /** With distinct ids, looking a template up by id finds exactly it. */
  lemma {:induction false} FindById(templates: seq<ProjectTemplate>, t: ProjectTemplate)
    requires DistinctIds(templates) && t in templates
    ensures Find(templates, HasId(t.id)) == Some(t)
  {
    var found := Find(templates, HasId(t.id));
    var k :| 0 <= k < |templates| && templates[k] == t;
    assert HasId(t.id)(templates[k]);
    var l :| 0 <= l < |templates| && templates[l] == found.value;
    if k != l {
      assert templates[k].id == templates[l].id;
    }
  }

  lemma {:induction false} FindByIdAll(templates: seq<ProjectTemplate>, templateId: string)
    ensures DistinctIds(templates) ==> forall t | t in templates && t.id == templateId ::
      Find(templates, HasId(templateId)) == Some(t)
  {
    if DistinctIds(templates) {
      forall t | t in templates && t.id == templateId ensures Find(templates, HasId(templateId)) == Some(t) {
        FindById(templates, t);
      }
    }
  }

  /** `templates.find(t => t.id === id)?.defaultTasks || []`. */
  function DefaultTasks(templates: seq<ProjectTemplate>, templateId: string): (r: seq<string>)
    ensures (forall t | t in templates :: t.id != templateId) ==> r == []
    ensures DistinctIds(templates) ==> forall t | t in templates && t.id == templateId :: r == t.defaultTasks
  {
    FindByIdAll(templates, templateId);
    var template := Find(templates, HasId(templateId));
    if template.Some? then template.value.defaultTasks else []
  }

  /** `template?.color || prev.color` in `handleTemplateSelect`. */
  function TemplateColor(templates: seq<ProjectTemplate>, templateId: string, previous: string): (r: string)
    ensures (forall t | t in templates :: t.id != templateId) ==> r == previous
    ensures DistinctIds(templates) ==> forall t | t in templates && t.id == templateId ::
      r == if t.color != "" then t.color else previous
  {
    FindByIdAll(templates, templateId);
    var template := Find(templates, HasId(templateId));
    if template.Some? && template.value.color != "" then template.value.color else previous
  }

  /** The page's templates have distinct ids and a colour each; the blank
      template starts with no tasks and every other with six. */
  lemma TemplatesShape()
    ensures DistinctIds(Templates)
    ensures forall t | t in Templates :: t.color != ""
    ensures forall t | t in Templates :: |t.defaultTasks| == if t.id == "blank" then 0 else 6
  {
  }

  /** Choosing one of the page's templates takes its colour and its tasks:
      none for the blank template, six for any other. */
  lemma {:induction false} TemplateChoice(templateId: string, previous: string)
    ensures forall t | t in Templates && t.id == templateId :: TemplateColor(Templates, templateId, previous) == t.color
    ensures templateId == "blank" ==> DefaultTasks(Templates, templateId) == []
    ensures (exists t | t in Templates :: t.id == templateId) && templateId != "blank" ==> |DefaultTasks(Templates, templateId)| == 6
  {
    TemplatesShape();
  }

  /** The errors `validateForm` records: a name error when the trimmed
      name is empty or, failing that, when the name is longer than 100
      characters; a description error when the description is longer than
      500 characters; nothing else. */
  function FormErrors(form: FormData): (r: map<string, string>)
    ensures r.Keys <= {"name", "description"}
    ensures "name" in r <==> Trim(form.name) == "" || |form.name| > MaxNameLength
    ensures "name" in r ==> r["name"] == if Trim(form.name) == "" then NameRequired else NameTooLong
    ensures "description" in r <==> |form.description| > MaxDescriptionLength
    ensures "description" in r ==> r["description"] == DescriptionTooLong
  {
    var named := if Trim(form.name) == "" then map["name" := NameRequired]
      else if |form.name| > MaxNameLength then map["name" := NameTooLong]
      else map[];
    if |form.description| > MaxDescriptionLength then named["description" := DescriptionTooLong] else named
  }

  /** Adding the name error and then the description error to an empty
      map builds exactly `FormErrors`. */
  lemma FieldByField(form: FormData, named: map<string, string>, all: map<string, string>)
    requires named == if Trim(form.name) == "" then map[]["name" := NameRequired]
      else if |form.name| > MaxNameLength then map[]["name" := NameTooLong]
      else map[]
    requires all == if |form.description| > MaxDescriptionLength then named["description" := DescriptionTooLong] else named
    ensures all == FormErrors(form)
  {
  }

  /** `Object.keys(m).length === 0` holds exactly of the empty map. */
  lemma NoKeysEmpty(m: map<string, string>)
    ensures |m.Keys| == 0 <==> m == map[]
  {
    if |m.Keys| == 0 {
      assert m.Keys == {};
    }
  }

  /** The submit button is enabled only when not loading and the trimmed
      name is non-empty; every form the button would reject also fails
      validation, and a valid form has a name of at most 100 characters. */
  lemma {:induction false} SubmitGuardWithinValidation(form: FormData)
    ensures Trim(form.name) == "" ==> FormErrors(form) != map[]
    ensures FormErrors(form) == map[] <==>
      Trim(form.name) != "" && |form.name| <= MaxNameLength && |form.description| <= MaxDescriptionLength
  {
    if Trim(form.name) == "" {
      assert "name" in FormErrors(form);
    }
    if Trim(form.name) != "" && |form.name| <= MaxNameLength && |form.description| <= MaxDescriptionLength {
      assert FormErrors(form).Keys == {};
    }
  }

  /** `user?.id || 'current-user'`. */
  function Creator(userId: Option<string>): (r: string)
    ensures r != ""
    ensures userId.Some? && userId.value != "" ==> r == userId.value
  {
    if userId.Some? && userId.value != "" then userId.value else "current-user"
  }

  /** The project `handleSubmit` builds from the form at time `now`: the
      form's fields, the selected template's tasks, the signed-in user (or
      the placeholder creator) and the submission time. */
  function NewProject(templates: seq<ProjectTemplate>, form: FormData, userId: Option<string>, now: nat): (p: ProjectData)
    ensures p.id == NatToString(now) && p.createdAt == now && p.updatedAt == now
    ensures p.name == form.name && p.description == form.description && p.color == form.color
    ensures p.visibility == form.visibility && p.template == form.template
    ensures p.defaultTasks == DefaultTasks(templates, form.template) && p.createdBy == Creator(userId)
  {
    ProjectData(NatToString(now), form.name, form.description, form.color, form.visibility,
      form.template, DefaultTasks(templates, form.template), Creator(userId), now, now)
  }

  class CreateProjectForm {
    const templates: seq<ProjectTemplate>
    var formData: FormData
    var loading: bool
    var errors: map<string, string>

    constructor ()
      ensures templates == Templates
      ensures formData == InitialForm && !loading && errors == map[]
    {
      templates := Templates;
      formData := InitialForm;
      loading := false;
      errors := map[];
    }

    /** The submit button's `disabled` condition, negated. */
    predicate SubmitEnabled()
      reads this
    {
      !loading && Trim(formData.name) != ""
    }

    /** `validateForm`: collects the errors field by field, stores them,
        and reports whether there were none. */
    method ValidateForm() returns (valid: bool)
      modifies this
      ensures errors == FormErrors(formData)
      ensures valid <==> errors == map[]
      ensures formData == old(formData) && loading == old(loading)
    {
      var form := formData;
      var newErrors: map<string, string> := map[];
      if Trim(form.name) == "" {
        newErrors := newErrors["name" := NameRequired];
      } else if |form.name| > MaxNameLength {
        newErrors := newErrors["name" := NameTooLong];
      }
      var named := newErrors;
      if |form.description| > MaxDescriptionLength {
        newErrors := newErrors["description" := DescriptionTooLong];
      }
      FieldByField(form, named, newErrors);
      NoKeysEmpty(newErrors);
      errors := newErrors;
      valid := |newErrors.Keys| == 0;
    }

    /** `handleTemplateSelect`: records the template and takes its colour,
        keeping the current colour for an unknown template. */
    method TemplateSelect(templateId: string)
      modifies this
      ensures formData == old(formData).(template := templateId, color := TemplateColor(templates, templateId, old(formData).color))
      ensures loading == old(loading) && errors == old(errors)
    {
      formData := formData.(template := templateId, color := TemplateColor(templates, templateId, formData.color));
    }

    /** `handleSubmit` at time `now`: an invalid form stops with its
        errors recorded; a valid one yields the project to create and ends
        with loading off. */
    method Submit(userId: Option<string>, now: nat) returns (created: Option<ProjectData>)
      modifies this
      ensures errors == FormErrors(old(formData)) && formData == old(formData)
      ensures created.None? <==> errors != map[]
      ensures created.Some? ==> created.value == NewProject(templates, formData, userId, now)
      ensures loading == if created.None? then old(loading) else false
    {
      var valid := ValidateForm();
      if !valid {
        return None;
      }
      loading := true;
      created := Some(NewProject(templates, formData, userId, now));
      loading := false;
    }
  }
}
