/** The add-task page: the length errors shown while typing and the task
    created from the form. */
module AddTask {
  import opened Wrappers
  import opened UserTypes
  import Numerals

  /** The form: the picked emoji (`null` is `None`), the deadline as the date
      input gives it (an empty input is `None`) and the picked categories. */
  datatype Form = Form(name: string, description: string, emoji: Option<string>, color: string,
                       deadline: Option<int>, selectedCategories: Option<seq<Category>>)

  /** The message of the name error, naming the limit in decimal. */
  function NameTooLongMessage(maxName: nat): string {
    "El nombre debe tener menos o igual a " + Numerals.ToString(maxName, 10) + " caracteres"
  }

  /** The message of the description error, naming the limit in decimal. */
  function DescriptionTooLongMessage(maxDescription: nat): string {
    "La descripción debe tener menos o igual a " + Numerals.ToString(maxDescription, 10) + " caracteres"
  }

  /** The errors shown under the name and description inputs while typing:
      each is on exactly while its input is over its limit, and is then the
      input's message. */
  function FormErrors(form: Form, maxName: nat, maxDescription: nat): (e: (string, string))
    ensures e.0 != "" <==> |form.name| > maxName
    ensures e.1 != "" <==> |form.description| > maxDescription
    ensures e.0 != "" ==> e.0 == NameTooLongMessage(maxName)
    ensures e.1 != "" ==> e.1 == DescriptionTooLongMessage(maxDescription)
  {
    (LengthError(form.name, maxName, NameTooLongMessage(maxName)),
     LengthError(form.description, maxDescription, DescriptionTooLongMessage(maxDescription)))
  }

  /** Why no task was added: a missing name is reported, a length error
      blocks the add silently. */
  datatype AddTaskError = NameRequired | LengthExceeded

  /** The task built from the form. */
  function NewTask(form: Form, newId: Id, now: int): Task {
    Task(newId, false, false, form.name,
         if form.description != "" then Some(form.description) else None,
         if form.emoji.Some? && form.emoji.value != "" then form.emoji else None,
         form.color, now, form.deadline,
         if form.selectedCategories.Some? then form.selectedCategories else Some([]),
         None, None, None)
  }

  /** `handleAddTask`. */
  function HandleAddTask(user: User, form: Form, maxName: nat, maxDescription: nat,
                         newId: Id, now: int): (r: Result<User, AddTaskError>)
    ensures r.Err? <==> form.name == "" || |form.name| > maxName || |form.description| > maxDescription
    ensures r.Err? ==> (r.error == NameRequired <==> form.name == "")
    ensures r.Ok? ==> r.value == user.(tasks := user.tasks + [NewTask(form, newId, now)])
  {
    if form.name == "" then Err(NameRequired)
    else if FormErrors(form, maxName, maxDescription) != ("", "") then
      Err(LengthExceeded)
    else Ok(user.(tasks := user.tasks + [NewTask(form, newId, now)]))
  }

  /** The new task is not done, not pinned, has never been saved, carries the
      form's name, colour and deadline, the picked categories or none
      (`[]`), and has a description and an emoji only when they are
      non-empty. It goes at the end and a fresh id keeps the ids unique. */
  lemma AddedTask(user: User, form: Form, maxName: nat, maxDescription: nat, newId: Id, now: int)
    requires form.name != "" && |form.name| <= maxName && |form.description| <= maxDescription
    ensures var u := HandleAddTask(user, form, maxName, maxDescription, newId, now).value;
            var t := u.tasks[|u.tasks| - 1];
            |u.tasks| == |user.tasks| + 1 && u.tasks[..|user.tasks|] == user.tasks &&
            t.id == newId && !t.done && !t.pinned && t.lastSave.None? && t.date == now &&
            t.name == form.name && t.color == form.color && t.deadline == form.deadline &&
            t.category.Some? && (form.selectedCategories.None? ==> t.category.value == []) &&
            (t.description.None? <==> form.description == "") &&
            (t.emoji.None? <==> form.emoji.None? || form.emoji.value == "")
    ensures UniqueTaskIds(user.tasks) && newId !in TaskIds(user.tasks) ==>
              UniqueTaskIds(HandleAddTask(user, form, maxName, maxDescription, newId, now).value.tasks)
  {
    var t := NewTask(form, newId, now);
    var ts := user.tasks + [t];
    assert ts[..|user.tasks|] == user.tasks;
    if UniqueTaskIds(user.tasks) && newId !in TaskIds(user.tasks) {
      forall i, j | 0 <= i < j < |ts| ensures ts[i].id != ts[j].id {
        if j == |user.tasks| {
          assert TaskIds(user.tasks)[i] == ts[i].id;
        }
      }
    }
  }
}
