/** The tag editing of `src/components/correction-editor.tsx`. The editor holds the
    question record being corrected and the text of the new-tag input box; every edit
    builds a new record from the old one and leaves the three text fields alone. */
module CorrectionEditor {
  import opened Strings

  datatype ParsedQuestion = ParsedQuestion(questionText: string, answerText: string, analysis: string,
                                           knowledgePoints: seq<string>)

  datatype Editor = Editor(data: ParsedQuestion, newTag: string)

  predicate Distinct(tags: seq<string>) {
    forall i, j :: 0 <= i < j < |tags| ==> tags[i] != tags[j]
  }

  /** The tags after adding `tag`: appended unless already present. */
  function WithTag(tags: seq<string>, tag: string): seq<string> {
    if tag in tags then tags else tags + [tag]
  }

  /** The shared body of the Enter key and the Plus button: a blank input does nothing;
      otherwise the trimmed text is added if absent and the input is cleared. */
  function AddTag(e: Editor): Editor {
    var tag := Trim(e.newTag);
    if tag == "" then e
    else Editor(e.data.(knowledgePoints := WithTag(e.data.knowledgePoints, tag)), "")
  }

  /** `handleAddTag`: only the Enter key adds. */
  function HandleAddTag(e: Editor, key: string): Editor {
    if key == "Enter" then AddTag(e) else e
  }

  /** The Plus button. */
  function ClickPlus(e: Editor): Editor {
    AddTag(e)
  }

  /** `tags.filter(tag => tag !== tagToRemove)`. */
  function Without(tags: seq<string>, tag: string): (r: seq<string>)
    ensures tag !in r
    ensures |r| <= |tags|
    ensures forall x :: x != tag ==> multiset(r)[x] == multiset(tags)[x]
  {
    if tags == [] then []
    else
      var rest := Without(tags[1..], tag);
      assert tags == [tags[0]] + tags[1..];
      if tags[0] == tag then rest else [tags[0]] + rest
  }

  /** `removeTag`. */
  function RemoveTag(e: Editor, tag: string): Editor {
    e.(data := e.data.(knowledgePoints := Without(e.data.knowledgePoints, tag)))
  }

  /** Whatever the edit, the question, answer and analysis stay as they were. */
  predicate SameText(a: ParsedQuestion, b: ParsedQuestion) {
    a.questionText == b.questionText && a.answerText == b.answerText && a.analysis == b.analysis
  }

  lemma EditsKeepText(e: Editor, key: string, tag: string)
    ensures SameText(HandleAddTag(e, key).data, e.data)
    ensures SameText(ClickPlus(e).data, e.data)
    ensures SameText(RemoveTag(e, tag).data, e.data)
  {
  }

  /** An input that is blank after trimming changes neither the tags nor the input. */
  lemma AddBlankIsNoOp(e: Editor)
    requires AllSpace(e.newTag)
    ensures AddTag(e) == e
  {
    TrimEmptyIffAllSpace(e.newTag);
  }

  /** A new trimmed tag goes to the end, the earlier tags keep their places, and the
      input is cleared. */
  lemma AddNewAppends(e: Editor)
    requires Trim(e.newTag) != "" && Trim(e.newTag) !in e.data.knowledgePoints
    ensures AddTag(e).data.knowledgePoints == e.data.knowledgePoints + [Trim(e.newTag)]
    ensures AddTag(e).newTag == ""
  {
  }

  /** A trimmed tag already present leaves the list as it was, but the input is still
      cleared. */
  lemma AddPresentKeepsList(e: Editor)
    requires Trim(e.newTag) != "" && Trim(e.newTag) in e.data.knowledgePoints
    ensures AddTag(e).data.knowledgePoints == e.data.knowledgePoints
    ensures AddTag(e).newTag == ""
  {
  }

  /** Adding never creates a duplicate. */
  lemma AddKeepsDistinct(e: Editor)
    requires Distinct(e.data.knowledgePoints)
    ensures Distinct(AddTag(e).data.knowledgePoints)
  {
  }

  /** After a non-blank add the trimmed tag is in the list. */
  lemma AddMakesPresent(e: Editor)
    requires Trim(e.newTag) != ""
    ensures Trim(e.newTag) in AddTag(e).data.knowledgePoints
  {
  }

  /** Removing a tag that is not there is the identity. */
  lemma {:induction false} WithoutAbsent(tags: seq<string>, tag: string)
    requires tag !in tags
    ensures Without(tags, tag) == tags
  {
    if tags != [] {
      WithoutAbsent(tags[1..], tag);
      assert tags == [tags[0]] + tags[1..];
    }
  }

  /** Filtering splits over concatenation, so the remaining tags keep their order. */
  lemma {:induction false} WithoutAppend(a: seq<string>, b: seq<string>, tag: string)
    ensures Without(a + b, tag) == Without(a, tag) + Without(b, tag)
  {
    if a == [] {
      assert a + b == b;
    } else {
      assert (a + b)[0] == a[0];
      assert (a + b)[1..] == a[1..] + b;
      WithoutAppend(a[1..], b, tag);
    }
  }

  /** Removing keeps a duplicate-free list duplicate-free. */
  lemma {:induction false} WithoutKeepsDistinct(tags: seq<string>, tag: string)
    requires Distinct(tags)
    ensures Distinct(Without(tags, tag))
  {
    if tags != [] {
      WithoutKeepsDistinct(tags[1..], tag);
      var rest := Without(tags[1..], tag);
      if tags[0] != tag {
        assert multiset(rest)[tags[0]] == multiset(tags[1..])[tags[0]] == 0 by {
          assert tags[0] !in tags[1..];
        }
        assert tags[0] !in rest;
      }
    }
  }

  /** Removing a freshly added tag undoes the add. */
  lemma RemoveUndoesAdd(e: Editor)
    requires Trim(e.newTag) != "" && Trim(e.newTag) !in e.data.knowledgePoints
    ensures RemoveTag(AddTag(e), Trim(e.newTag)).data == e.data
  {
    var tags := e.data.knowledgePoints;
    var tag := Trim(e.newTag);
    WithoutAppend(tags, [tag], tag);
    WithoutAbsent(tags, tag);
    assert Without([tag], tag) == [];
  }
}
