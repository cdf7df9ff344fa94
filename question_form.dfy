/** The tag field of the question form: pressing Enter in the tag input adds the trimmed
    value as a tag, subject to a length limit and a duplicate check, and a tag's close
    button removes it. */
module QuestionForm {
  import opened Wrappers
  import opened Seqs
  import opened Text

  /** The longest tag the form accepts. */
  const MaxTagLength := 15

  const TagTooLong := "Tag must be less than 15 characters."

  /** What a key press in the tag input does. */
  datatype TagEntry =
    | Ignored        // another key, another field, or only whitespace typed
    | TooLong        // the trimmed value is longer than the limit
    | Added(tag: string)
    | Duplicate      // the trimmed value is already a tag

  /** The decision `handleInputKeyDown` takes for a key press. */
  function ClassifyEntry(key: string, fieldName: string, input: string, tags: seq<string>): (r: TagEntry)
    ensures r == Ignored <==> key != "Enter" || fieldName != "tags" || Trim(input) == ""
    ensures r == TooLong <==> key == "Enter" && fieldName == "tags" && |Trim(input)| > MaxTagLength
    ensures r.Added? <==>
              && key == "Enter" && fieldName == "tags"
              && Trim(input) != "" && |Trim(input)| <= MaxTagLength && Trim(input) !in tags
    ensures r.Added? ==> r.tag == Trim(input)
    ensures r == Duplicate <==>
              && key == "Enter" && fieldName == "tags"
              && Trim(input) != "" && |Trim(input)| <= MaxTagLength && Trim(input) in tags
  {
    var value := Trim(input);
    if key != "Enter" || fieldName != "tags" || value == "" then Ignored
    else if |value| > MaxTagLength then TooLong
    else if value !in tags then Added(value)
    else Duplicate
  }

  /** The form state the handlers write: the `tags` value, the text of the tag input and the
      error message of the `tags` field. */
  class TagField {
    var tags: seq<string>
    var input: string
    var error: Option<string>

    /** The form opens with the question's tags (none for a new question). */
    constructor(initial: seq<string>)
      ensures tags == initial && input == "" && error == None
    {
      tags := initial;
      input := "";
      error := None;
    }

    /** `handleInputKeyDown`: a new trimmed value of at most 15 characters is appended, the
        input cleared and the error cleared; a longer one only sets the error; anything else
        changes nothing. */
    method HandleInputKeyDown(key: string, fieldName: string)
      modifies this
      ensures match ClassifyEntry(key, fieldName, old(input), old(tags))
              case Ignored => tags == old(tags) && input == old(input) && error == old(error)
              case Duplicate => tags == old(tags) && input == old(input) && error == old(error)
              case TooLong => tags == old(tags) && input == old(input) && error == Some(TagTooLong)
              case Added(t) => tags == old(tags) + [t] && input == "" && error == None
      ensures NoDuplicates(old(tags)) ==> NoDuplicates(tags)
    {
      if key == "Enter" && fieldName == "tags" {
        var tagValue := Trim(input);
        if tagValue != "" {
          if |tagValue| > MaxTagLength {
            error := Some(TagTooLong);
            return;
          }
          if tagValue !in tags {
            AppendKeepsNoDuplicates(tags, tagValue);
            tags := tags + [tagValue];
            input := "";
            error := None;
          }
        }
      }
    }

    /** `handelTagRemove`: every copy of the tag goes, the others keep their order. */
    method HandleTagRemove(tag: string)
      modifies this
      ensures tags == Pull(old(tags), tag)
      ensures tag !in tags && IsSubsequence(tags, old(tags))
      ensures input == old(input) && error == old(error)
    {
      tags := Pull(tags, tag);
    }
  }

  /** Appending a value not yet present keeps a list duplicate-free. */
  lemma AppendKeepsNoDuplicates(tags: seq<string>, t: string)
    requires t !in tags
    ensures NoDuplicates(tags) ==> NoDuplicates(tags + [t])
  {
    if NoDuplicates(tags) {
      var s := tags + [t];
      forall i, j | 0 <= i < j < |s|
        ensures s[i] != s[j]
      {
        assert s[i] == tags[i];
      }
    }
  }

  /** Removing a tag just added gives back the tags before it. */
  lemma {:induction false} AddThenRemove(tags: seq<string>, t: string)
    requires t !in tags
    ensures Pull(tags + [t], t) == tags
  {
    PullAppend(tags, t, t);
  }

  /** The limit is inclusive: a value of exactly 15 characters without surrounding whitespace
      is added (unless already present), one of 16 is refused. */
  lemma LengthLimitInclusive(value: string, tags: seq<string>)
    requires forall c :: c in value ==> !IsSpace(c)
    ensures |value| == MaxTagLength ==>
              ClassifyEntry("Enter", "tags", value, tags) == if value in tags then Duplicate else Added(value)
    ensures |value| == MaxTagLength + 1 ==> ClassifyEntry("Enter", "tags", value, tags) == TooLong
  {
  }
}
