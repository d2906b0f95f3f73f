/** `TaskEditor.edit_task`: a cleaned copy of a task record. */
module TaskEditor {
  import opened PyText
  import opened TextCleaner

  /** A task record as the remote service returns it. `rest` stands for every other key of
      the record; the editor only passes it through, so its values are kept abstract. */
  datatype Task = Task(
    id: string,
    name: string,
    description: string,
    textContent: string,
    dateCreated: int,
    rest: map<string, string>)

  /** The three configured rule lists. */
  datatype Rules = Rules(subjects: seq<string>, headers: seq<string>, footers: seq<string>)

  /** The name after the subject loop (description_updater.py:228-230): each subject, in list
      order, is removed from the name when it occurs in it. */
  function RemoveSubjects(name: string, subjects: seq<string>): string
    decreases |subjects|
  {
    if subjects == [] then name
    else
      var n := RemoveSubjects(name, subjects[..|subjects| - 1]);
      var subject := subjects[|subjects| - 1];
      if Contains(n, subject) then RemoveAll(n, subject) else n
  }

  /** A description or body after the header pass and then, separately, the footer pass. */
  function CleanField(text: string, rules: Rules): string
  {
    CleanText(CleanText(text, rules.headers), rules.footers)
  }

  /** The record `edit_task` returns. */
  function EditedTask(task: Task, rules: Rules): Task
  {
    task.(name := RemoveSubjects(task.name, rules.subjects),
          description := CleanField(task.description, rules),
          textContent := CleanField(task.textContent, rules))
  }

  /** `edit_task` as the source writes it: a copy of the record updated field by field. The
      input is a value, so it cannot be changed; the result differs from it only in the
      name, the description and the body. */
  method EditTask(task: Task, rules: Rules) returns (updated: Task)
    ensures updated == EditedTask(task, rules)
    ensures updated.id == task.id && updated.dateCreated == task.dateCreated
    ensures updated.rest == task.rest
    ensures updated.description == CleanText(CleanText(task.description, rules.headers), rules.footers)
    ensures updated.textContent == CleanText(CleanText(task.textContent, rules.headers), rules.footers)
    ensures NoLineBreak(updated.description) && Trimmed(updated.description)
    ensures NoLineBreak(updated.textContent) && Trimmed(updated.textContent)
  {
    updated := task;
    for k := 0 to |rules.subjects|
      invariant updated == task.(name := RemoveSubjects(task.name, rules.subjects[..k]))
    {
      assert rules.subjects[..k + 1][..k] == rules.subjects[..k];
      var subject := rules.subjects[k];
      if Contains(updated.name, subject) {
        updated := updated.(name := RemoveAll(updated.name, subject));
      }
    }
    assert rules.subjects[..|rules.subjects|] == rules.subjects;
    var description := ReplaceText(updated.description, rules.headers);
    description := ReplaceText(description, rules.footers);
    updated := updated.(description := description);
    var textContent := ReplaceText(updated.textContent, rules.headers);
    textContent := ReplaceText(textContent, rules.footers);
    updated := updated.(textContent := textContent);
  }

  // ---------------------------------------------------------------------------
  // Properties
  // ---------------------------------------------------------------------------

  /** The `subject in name` test changes nothing: removing an absent subject is a no-op, so
      the name is the plain sequence of removals. */
  lemma {:induction false} RemoveSubjectsIsRemoveEach(name: string, subjects: seq<string>)
    ensures RemoveSubjects(name, subjects) == RemoveEach(name, subjects)
    decreases |subjects|
  {
    if subjects != [] {
      var init := subjects[..|subjects| - 1];
      RemoveSubjectsIsRemoveEach(name, init);
      RemoveAllIdentity(RemoveSubjects(name, init), subjects[|subjects| - 1]);
    }
  }

  /** Subject removal only ever shortens the name. */
  lemma {:induction false} RemoveSubjectsShortens(name: string, subjects: seq<string>)
    ensures RemoveSubjects(name, subjects) == name || |RemoveSubjects(name, subjects)| < |name|
    decreases |subjects|
  {
    if subjects != [] {
      RemoveSubjectsShortens(name, subjects[..|subjects| - 1]);
    }
  }

  /** The name is left as it is exactly when none of the non-empty subjects occurs in it. */
  lemma {:induction false} NameUnchangedIff(name: string, subjects: seq<string>)
    ensures RemoveSubjects(name, subjects) == name
            <==> forall k :: 0 <= k < |subjects| ==> subjects[k] == [] || !Contains(name, subjects[k])
    decreases |subjects|
  {
    if subjects != [] {
      var init := subjects[..|subjects| - 1];
      var last := subjects[|subjects| - 1];
      var n := RemoveSubjects(name, init);
      NameUnchangedIff(name, init);
      RemoveSubjectsShortens(name, init);
      RemoveAllIdentity(n, last);
      if n == name {
        assert forall k :: 0 <= k < |init| ==> init[k] == subjects[k];
      } else {
        var r := RemoveSubjects(name, subjects);
        assert r == n || |r| < |n|;
        assert r != name;
        var k :| 0 <= k < |init| && !(init[k] == [] || !Contains(name, init[k]));
        assert subjects[k] == init[k];
      }
    }
  }

  /** Both text fields come out as one line without whitespace at either end. */
  lemma EditedTextIsOneLine(task: Task, rules: Rules)
    ensures NoLineBreak(EditedTask(task, rules).description) && Trimmed(EditedTask(task, rules).description)
    ensures NoLineBreak(EditedTask(task, rules).textContent) && Trimmed(EditedTask(task, rules).textContent)
  {
    CleanTextIsOneLine(CleanText(task.description, rules.headers), rules.footers);
    CleanTextIsOneLine(CleanText(task.textContent, rules.headers), rules.footers);
  }
}
