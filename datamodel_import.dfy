/**
 * The decisions `DataModelObject` takes when it imports a datamodel hash
 * (app/models/concerns/data_model_object.rb): the work's identifier
 * (`object_datamodel2_metadata_to_hyrax`), `generate_uuid`, the default
 * `date_modified`, and which history entries `set_sipity_entity_and_tagging`
 * reads the last modification, the responsible user, the tag and the workflow
 * action from.  The Hyrax and Sipity objects those decisions are written
 * to are not part of this model: the functions return the decisions.
 */
module DatamodelImport {
  import opened Wrappers
  import opened RubyText
  import opened RubyValue
  import opened Exceptions

  // ---------------------------------------------------------------------
  // The history array

  /** `history.select { |h| h[...] ... }` visits the entries in order; the
      first one that is not a hash raises: `nil[:k]` and `true[:k]` have no
      `[]` method, and a string, integer or array refuses a symbol index. */
  function HistoryEntries(items: seq<Value>): (r: Result<seq<Entries>, Exception>)
    ensures r.Ok? <==> forall i :: 0 <= i < |items| ==> items[i].Hash?
    ensures r.Ok? ==> |r.value| == |items| && forall i :: 0 <= i < |items| ==> Hash(r.value[i]) == items[i]
  {
    if items == [] then Ok([])
    else if !items[0].Hash? then
      Err(if items[0].Nil? || items[0].Bool? then NoMethodError("[]") else TypeError("no implicit conversion of Symbol into Integer"))
    else
      match HistoryEntries(items[1..])
      case Err(e) => Err(e)
      case Ok(rest) => Ok([items[0].entries] + rest)
  }

  /** `datamodel_hash[:history]`, read as the array of hashes the select
      calls need. `Hash#select` hands the block each key: an empty hash
      selects nothing, and a non-empty one raises when the block indexes
      a Symbol key by a Symbol. Any other value has no `select`. */
  function History(datamodelHash: Entries): (r: Result<seq<Entries>, Exception>)
    ensures r.Ok? <==>
      (Lookup(datamodelHash, "history").Arr? && HistoryEntries(Lookup(datamodelHash, "history").items).Ok?) ||
      Lookup(datamodelHash, "history") == Hash([])
    ensures Lookup(datamodelHash, "history") == Hash([]) ==> r == Ok([])
    ensures Lookup(datamodelHash, "history").Arr? ==> r == HistoryEntries(Lookup(datamodelHash, "history").items)
  {
    var h := Lookup(datamodelHash, "history");
    if h.Arr? then HistoryEntries(h.items)
    else if h.Hash? then (if h.entries == [] then Ok([]) else Err(TypeError("no implicit conversion of Symbol into Integer")))
    else Err(NoMethodError("select"))
  }

  /** Entry `i` is the first whose `action_comment` is `comment`. */
  predicate FirstAt(hs: seq<Entries>, i: nat, comment: string)
    requires i < |hs|
  {
    Lookup(hs[i], "action_comment") == Str(comment) &&
    forall j :: 0 <= j < i ==> Lookup(hs[j], "action_comment") != Str(comment)
  }

  /** `history.select { |h| h[:action_comment] == comment }.first` */
  function FirstWithComment(hs: seq<Entries>, comment: string): (r: Option<Entries>)
    ensures r.None? <==> forall i :: 0 <= i < |hs| ==> Lookup(hs[i], "action_comment") != Str(comment)
    ensures r.Some? ==> exists i :: 0 <= i < |hs| && hs[i] == r.value && FirstAt(hs, i, comment)
    ensures forall i :: 0 <= i < |hs| && FirstAt(hs, i, comment) ==> r == Some(hs[i])
  {
    if hs == [] then None
    else if Lookup(hs[0], "action_comment") == Str(comment) then Some(hs[0])
    else
      var r := FirstWithComment(hs[1..], comment);
      assert r.Some? ==> exists i :: 0 <= i < |hs| && hs[i] == r.value && FirstAt(hs, i, comment) by {
        if r.Some? {
          var i :| 0 <= i < |hs| - 1 && hs[1..][i] == r.value && FirstAt(hs[1..], i, comment);
          FirstAtCons(hs, i, comment);
        }
      }
      assert forall i :: 0 <= i < |hs| && FirstAt(hs, i, comment) ==> r == Some(hs[i]) by {
        forall i | 0 <= i < |hs| && FirstAt(hs, i, comment)
          ensures r == Some(hs[i])
        {
          assert i != 0;
          FirstAtCons(hs, i - 1, comment);
        }
      }
      r
  }

  /** The first match in the rest, past a first entry that does not match,
      is the first match of the whole history. */
  lemma FirstAtCons(hs: seq<Entries>, i: nat, comment: string)
    requires i + 1 < |hs| && Lookup(hs[0], "action_comment") != Str(comment)
    ensures FirstAt(hs[1..], i, comment) <==> FirstAt(hs, i + 1, comment)
  {
    assert hs[1..][i] == hs[i + 1];
    if FirstAt(hs[1..], i, comment) {
      forall j | 0 <= j < i + 1
        ensures Lookup(hs[j], "action_comment") != Str(comment)
      {
        if j > 0 { assert hs[j] == hs[1..][j - 1]; }
      }
    }
    if FirstAt(hs, i + 1, comment) {
      forall j | 0 <= j < i
        ensures Lookup(hs[1..][j], "action_comment") != Str(comment)
      {
        assert hs[1..][j] == hs[j + 1];
      }
    }
  }

  /** The condition of `review_histories`. */
  predicate IsReview(h: Entries)
  {
    Lookup(h, "action_category") == Str("review_workflow") && Present(Lookup(h, "action_date"))
  }

  /** `history.select { |h| h[:action_category] == "review_workflow" &&
      h[:action_date].present? }` */
  function ReviewHistories(hs: seq<Entries>): (r: seq<Entries>)
    ensures forall h :: h in r <==> h in hs && IsReview(h)
  {
    if hs == [] then []
    else (if IsReview(hs[0]) then [hs[0]] else []) + ReviewHistories(hs[1..])
  }

  /** The condition of `tagging_histories`. */
  predicate IsTagging(h: Entries)
  {
    Lookup(h, "action_category") == Str("tagging")
  }

  /** Entry `i` is a tagging entry and no later entry is one. */
  predicate LastTaggingAt(hs: seq<Entries>, i: nat)
    requires i < |hs|
  {
    IsTagging(hs[i]) && forall j :: i < j < |hs| ==> !IsTagging(hs[j])
  }

  /** `history.select { |h| h[:action_category] == "tagging" }`; its
      `last` is the last tagging entry of the history. */
  function TaggingHistories(hs: seq<Entries>): (r: seq<Entries>)
    ensures forall h :: h in r <==> h in hs && IsTagging(h)
    ensures r != [] ==> exists i :: 0 <= i < |hs| && LastTaggingAt(hs, i) && r[|r| - 1] == hs[i]
  {
    if hs == [] then []
    else
      var rest := TaggingHistories(hs[1..]);
      assert rest != [] ==> exists i :: 0 <= i < |hs| && LastTaggingAt(hs, i) && rest[|rest| - 1] == hs[i] by {
        if rest != [] {
          var i :| 0 <= i < |hs| - 1 && LastTaggingAt(hs[1..], i) && rest[|rest| - 1] == hs[1..][i];
          LastTaggingAtCons(hs, i);
        }
      }
      assert rest == [] && IsTagging(hs[0]) ==> LastTaggingAt(hs, 0) by {
        if rest == [] && IsTagging(hs[0]) {
          LastTaggingAtHead(hs);
        }
      }
      (if IsTagging(hs[0]) then [hs[0]] else []) + rest
  }

  lemma LastTaggingAtCons(hs: seq<Entries>, i: nat)
    requires i + 1 < |hs| && LastTaggingAt(hs[1..], i)
    ensures LastTaggingAt(hs, i + 1) && hs[1..][i] == hs[i + 1]
  {
    forall j | i + 1 < j < |hs|
      ensures !IsTagging(hs[j])
    {
      assert hs[j] == hs[1..][j - 1];
    }
  }

  lemma LastTaggingAtHead(hs: seq<Entries>)
    requires hs != [] && IsTagging(hs[0]) && forall h :: h in hs[1..] ==> !IsTagging(h)
    ensures LastTaggingAt(hs, 0)
  {
    forall j | 0 < j < |hs|
      ensures !IsTagging(hs[j])
    {
      assert hs[j] in hs[1..];
    }
  }

  /** Selecting commutes with concatenation, so the selected entries keep
      their history order and number. */
  lemma {:induction false} TaggingHistoriesAppend(a: seq<Entries>, b: seq<Entries>)
    ensures TaggingHistories(a + b) == TaggingHistories(a) + TaggingHistories(b)
  {
    if a == [] {
      assert a + b == b;
    } else {
      var x := if IsTagging(a[0]) then [a[0]] else [];
      assert (a + b)[0] == a[0] && (a + b)[1..] == a[1..] + b;
      assert TaggingHistories(a + b) == x + TaggingHistories(a[1..] + b);
      TaggingHistoriesAppend(a[1..], b);
      Regroup3(x, TaggingHistories(a[1..]), TaggingHistories(b));
    }
  }

  lemma Regroup3(x: seq<Entries>, y: seq<Entries>, z: seq<Entries>)
    ensures x + (y + z) == (x + y) + z
  {
  }

  /** The sort key of `sort_by { |h| h[:action_date].to_s }`. */
  function DateKey(h: Entries): string
  {
    ToS(Lookup(h, "action_date"))
  }

  /** `hs.sort_by { |h| h[:action_date].to_s }.last`: an entry whose date
      string is greatest; of several such, the one listed last. */
  function LatestByDate(hs: seq<Entries>): (r: Entries)
    requires hs != []
    ensures r in hs
    ensures forall i :: 0 <= i < |hs| ==> LessEq(DateKey(hs[i]), DateKey(r))
    decreases |hs|
  {
    if |hs| == 1 then hs[0]
    else
      var init := hs[..|hs| - 1];
      var e := hs[|hs| - 1];
      var m := LatestByDate(init);
      assert forall i :: 0 <= i < |init| ==> hs[i] == init[i];
      if LessEq(DateKey(m), DateKey(e)) then
        assert forall i :: 0 <= i < |init| ==> LessEq(DateKey(hs[i]), DateKey(e)) by {
          forall i | 0 <= i < |init|
            ensures LessEq(DateKey(hs[i]), DateKey(e))
          {
            if DateKey(hs[i]) != DateKey(m) && DateKey(m) != DateKey(e) {
              LessTransitive(DateKey(hs[i]), DateKey(m), DateKey(e));
            }
          }
        }
        e
      else
        LessTrichotomy(DateKey(m), DateKey(e));
        m
  }

  // ---------------------------------------------------------------------
  // Splitting a tag description

  predicate NoSpace(w: string)
  {
    forall i :: 0 <= i < |w| ==> !IsSpace(w[i])
  }

  /** The words of `s`, with `cur` the word being read. */
  function WordsFrom(s: string, cur: string): (r: seq<string>)
    requires NoSpace(cur)
    ensures forall i :: 0 <= i < |r| ==> r[i] != "" && NoSpace(r[i])
    decreases |s|
  {
    if s == [] then (if cur == "" then [] else [cur])
    else if IsSpace(s[0]) then (if cur == "" then WordsFrom(s[1..], "") else [cur] + WordsFrom(s[1..], ""))
    else WordsFrom(s[1..], cur + [s[0]])
  }

  /** `s.split(" ")`: Ruby splits on runs of whitespace and ignores leading
      and trailing whitespace. */
  function Words(s: string): (r: seq<string>)
    ensures forall i :: 0 <= i < |r| ==> r[i] != "" && NoSpace(r[i])
  {
    WordsFrom(s, "")
  }

  lemma {:induction false} WordsFromWord(w: string, t: string, cur: string)
    requires NoSpace(w) && NoSpace(cur)
    ensures NoSpace(cur + w)
    ensures WordsFrom(w + t, cur) == WordsFrom(t, cur + w)
    decreases |w|
  {
    if w == [] {
      assert w + t == t && cur + w == cur;
    } else {
      assert (w + t)[0] == w[0] && (w + t)[1..] == w[1..] + t;
      assert (cur + [w[0]]) + w[1..] == cur + w;
      WordsFromWord(w[1..], t, cur + [w[0]]);
    }
  }

  /** Joining space-free words with single spaces and splitting again
      gives the words back. */
  lemma {:induction false} WordsJoin(ws: seq<string>)
    requires forall i :: 0 <= i < |ws| ==> ws[i] != "" && NoSpace(ws[i])
    ensures Words(JoinWith(ws, " ")) == ws
    decreases |ws|
  {
    if |ws| == 1 {
      WordsFromWord(ws[0], "", "");
      assert ws[0] + "" == ws[0] && "" + ws[0] == ws[0];
    } else if |ws| > 1 {
      var t := JoinWith(ws[1..], " ");
      assert JoinWith(ws, " ") == ws[0] + (" " + t);
      WordsFromWord(ws[0], " " + t, "");
      assert "" + ws[0] == ws[0];
      assert (" " + t)[1..] == t;
      WordsJoin(ws[1..]);
      assert ws == [ws[0]] + ws[1..];
    }
  }

  // ---------------------------------------------------------------------
  // set_sipity_entity_and_tagging

  /** What `date_modified` is given: nothing, or the `action_date` of the
      chosen entry (`nil` when it has none; its `to_datetime` parsing is
      not modelled). */
  datatype DateChoice = Unset | SetTo(date: Value)

  /** `set_tag_list_on(tag_context, tag_value)`: the first and third word
      of the description, `nil` where there are fewer words. */
  datatype Tag = Tag(context: Option<string>, value: Option<string>)

  datatype SipityChoices = SipityChoices(
    dateModified: DateChoice,
    tag: Option<Tag>,
    reviewer: Option<Value>,
    workflowAction: Value)

  /** The `date_modified` of lines 84-98: "Last updated by" wins, then
      "First reviewed by", then the latest review. */
  function ReviewDate(hs: seq<Entries>): (r: DateChoice)
    ensures r.Unset? <==> FirstWithComment(hs, "Last updated by").None? &&
                          FirstWithComment(hs, "First reviewed by").None? && ReviewHistories(hs) == []
    ensures forall i :: 0 <= i < |hs| && FirstAt(hs, i, "Last updated by") ==>
              r == SetTo(Lookup(hs[i], "action_date"))
    ensures FirstWithComment(hs, "Last updated by").None? ==>
              forall i :: 0 <= i < |hs| && FirstAt(hs, i, "First reviewed by") ==>
                r == SetTo(Lookup(hs[i], "action_date"))
    ensures FirstWithComment(hs, "Last updated by").None? && FirstWithComment(hs, "First reviewed by").None? &&
            ReviewHistories(hs) != [] ==>
              exists e :: e in hs && IsReview(e) && r == SetTo(Lookup(e, "action_date")) &&
                forall i :: 0 <= i < |hs| && IsReview(hs[i]) ==> LessEq(DateKey(hs[i]), DateKey(e))
  {
    match FirstWithComment(hs, "Last updated by")
    case Some(last) => SetTo(Lookup(last, "action_date"))
    case None =>
      match FirstWithComment(hs, "First reviewed by")
      case Some(first) => SetTo(Lookup(first, "action_date"))
      case None =>
        var reviews := ReviewHistories(hs);
        if reviews != [] then
          LatestReviewIsGreatest(hs);
          SetTo(Lookup(LatestByDate(reviews), "action_date"))
        else Unset
  }

  /** Lines 111-116: the tag of the last tagging entry, or the error of
      splitting a description that is not a string. */
  function TagChoice(hs: seq<Entries>): (r: Result<Option<Tag>, Exception>)
    ensures r == Ok(None) <==> TaggingHistories(hs) == []
  {
    var taggings := TaggingHistories(hs);
    if taggings == [] then Ok(None)
    else
      var description := Lookup(taggings[|taggings| - 1], "action_description");
      if !description.Str? then Err(NoMethodError("split"))
      else
        var words := Words(description.s);
        Ok(Some(Tag(At(words, 0), At(words, 2))))
  }

  /** The decisions of `set_sipity_entity_and_tagging`, or what it raises. */
  function SipityDecisions(datamodelHash: Entries): (r: Result<SipityChoices, Exception>)
    ensures r.Ok? <==> History(datamodelHash).Ok? && TagChoice(History(datamodelHash).value).Ok?
  {
    match History(datamodelHash)
    case Err(e) => Err(e)
    case Ok(hs) =>
      match TagChoice(hs)
      case Err(e) => Err(e)
      case Ok(tag) =>
        var last := FirstWithComment(hs, "Last updated by");
        var reviewer :=
          if last.Some? then Some(Lookup(last.value, "action_responsibility"))
          else if Present(Lookup(datamodelHash, "record_first_reviewed_by")) then Some(Lookup(datamodelHash, "record_first_reviewed_by"))
          else None;
        var reviews := ReviewHistories(hs);
        var action := if reviews != [] then Lookup(LatestByDate(reviews), "action_description") else Str("submit");
        Ok(SipityChoices(ReviewDate(hs), tag, reviewer, action))
  }

  /** The first "Last updated by" entry decides both the modification date
      and the responsible user. */
  lemma LastUpdatedWins(datamodelHash: Entries, i: nat)
    requires SipityDecisions(datamodelHash).Ok?
    requires var hs := History(datamodelHash).value;
      i < |hs| && Lookup(hs[i], "action_comment") == Str("Last updated by") &&
      forall j :: 0 <= j < i ==> Lookup(hs[j], "action_comment") != Str("Last updated by")
    ensures var hs := History(datamodelHash).value;
      var d := SipityDecisions(datamodelHash).value;
      d.dateModified == SetTo(Lookup(hs[i], "action_date")) &&
      d.reviewer == Some(Lookup(hs[i], "action_responsibility"))
  {
    var hs := History(datamodelHash).value;
    var r := FirstWithComment(hs, "Last updated by");
    var k :| 0 <= k < |hs| && hs[k] == r.value && Lookup(hs[k], "action_comment") == Str("Last updated by") &&
             forall j :: 0 <= j < k ==> Lookup(hs[j], "action_comment") != Str("Last updated by");
    assert k == i;
  }

  /** With no "Last updated by" and no "First reviewed by" entry, the date
      and the workflow action come from a review entry whose date is the
      greatest of all reviews. */
  lemma LatestReviewDecides(datamodelHash: Entries)
    requires SipityDecisions(datamodelHash).Ok?
    requires var hs := History(datamodelHash).value;
      (forall i :: 0 <= i < |hs| ==> Lookup(hs[i], "action_comment") != Str("Last updated by")) &&
      (forall i :: 0 <= i < |hs| ==> Lookup(hs[i], "action_comment") != Str("First reviewed by")) &&
      exists i :: 0 <= i < |hs| && IsReview(hs[i])
    ensures var hs := History(datamodelHash).value;
      var d := SipityDecisions(datamodelHash).value;
      exists e :: e in hs && IsReview(e) &&
        d.dateModified == SetTo(Lookup(e, "action_date")) &&
        d.workflowAction == Lookup(e, "action_description") &&
        forall i :: 0 <= i < |hs| && IsReview(hs[i]) ==> LessEq(DateKey(hs[i]), DateKey(e))
  {
    var hs := History(datamodelHash).value;
    var w :| 0 <= w < |hs| && IsReview(hs[w]);
    ReviewHistoriesHas(hs, w);
    NoComment(hs, "Last updated by");
    NoComment(hs, "First reviewed by");
    LatestReviewIsGreatest(hs);
    DecisionsOfLatestReview(datamodelHash);
    var e := LatestByDate(ReviewHistories(hs));
  }

  lemma ReviewHistoriesHas(hs: seq<Entries>, w: nat)
    requires w < |hs| && IsReview(hs[w])
    ensures ReviewHistories(hs) != []
  {
    assert hs[w] in ReviewHistories(hs);
  }

  lemma NoComment(hs: seq<Entries>, comment: string)
    requires forall i :: 0 <= i < |hs| ==> Lookup(hs[i], "action_comment") != Str(comment)
    ensures FirstWithComment(hs, comment).None?
  {
  }

  lemma LatestReviewIsGreatest(hs: seq<Entries>)
    requires ReviewHistories(hs) != []
    ensures var e := LatestByDate(ReviewHistories(hs));
      e in hs && IsReview(e) &&
      forall i :: 0 <= i < |hs| && IsReview(hs[i]) ==> LessEq(DateKey(hs[i]), DateKey(e))
  {
    var reviews := ReviewHistories(hs);
    forall i | 0 <= i < |hs| && IsReview(hs[i])
      ensures LessEq(DateKey(hs[i]), DateKey(LatestByDate(reviews)))
    {
      assert hs[i] in reviews;
      LatestIsGreatest(reviews, hs[i]);
    }
  }

  lemma LatestIsGreatest(hs: seq<Entries>, h: Entries)
    requires h in hs
    ensures LessEq(DateKey(h), DateKey(LatestByDate(hs)))
  {
    var j :| 0 <= j < |hs| && hs[j] == h;
  }

  lemma DecisionsOfLatestReview(datamodelHash: Entries)
    requires SipityDecisions(datamodelHash).Ok?
    requires var hs := History(datamodelHash).value;
      FirstWithComment(hs, "Last updated by").None? && FirstWithComment(hs, "First reviewed by").None? &&
      ReviewHistories(hs) != []
    ensures var hs := History(datamodelHash).value;
      var d := SipityDecisions(datamodelHash).value;
      var e := LatestByDate(ReviewHistories(hs));
      d.dateModified == SetTo(Lookup(e, "action_date")) && d.workflowAction == Lookup(e, "action_description")
  {
  }

  /** With no "Last updated by" entry, the first "First reviewed by" entry
      decides the modification date. */
  lemma FirstReviewedDecides(datamodelHash: Entries, i: nat)
    requires SipityDecisions(datamodelHash).Ok?
    requires var hs := History(datamodelHash).value;
      (forall j :: 0 <= j < |hs| ==> Lookup(hs[j], "action_comment") != Str("Last updated by")) &&
      i < |hs| && FirstAt(hs, i, "First reviewed by")
    ensures var hs := History(datamodelHash).value;
      SipityDecisions(datamodelHash).value.dateModified == SetTo(Lookup(hs[i], "action_date"))
  {
    NoComment(History(datamodelHash).value, "Last updated by");
  }

  /** With no "Last updated by" entry, the `reviewers` tag is the record's
      first reviewer when that is present, and is not set otherwise. */
  lemma ReviewerFallsBackToRecord(datamodelHash: Entries)
    requires SipityDecisions(datamodelHash).Ok?
    requires var hs := History(datamodelHash).value;
      forall j :: 0 <= j < |hs| ==> Lookup(hs[j], "action_comment") != Str("Last updated by")
    ensures var first := Lookup(datamodelHash, "record_first_reviewed_by");
      SipityDecisions(datamodelHash).value.reviewer == if Present(first) then Some(first) else None
  {
    NoComment(History(datamodelHash).value, "Last updated by");
  }

  /** An empty hash for `history` selects nothing: no date, no tag, the
      record's first reviewer if present, and `submit`. */
  lemma EmptyHashHistory(datamodelHash: Entries)
    requires Lookup(datamodelHash, "history") == Hash([])
    ensures var first := Lookup(datamodelHash, "record_first_reviewed_by");
      SipityDecisions(datamodelHash) ==
        Ok(SipityChoices(Unset, None, if Present(first) then Some(first) else None, Str("submit")))
  {
  }

  /** With no review entry the workflow action is `submit`. */
  lemma SubmitWithoutReviews(datamodelHash: Entries)
    requires SipityDecisions(datamodelHash).Ok?
    requires var hs := History(datamodelHash).value;
      forall i :: 0 <= i < |hs| ==> !IsReview(hs[i])
    ensures SipityDecisions(datamodelHash).value.workflowAction == Str("submit")
  {
  }

  /** A tag description written as `context action value` gives the
      context and the value. */
  lemma TagOfDescription(hs: seq<Entries>, context: string, action: string, value: string)
    requires TaggingHistories(hs) != []
    requires Lookup(TaggingHistories(hs)[|TaggingHistories(hs)| - 1], "action_description") ==
             Str(context + " " + action + " " + value)
    requires context != "" && action != "" && value != ""
    requires NoSpace(context) && NoSpace(action) && NoSpace(value)
    ensures TagChoice(hs) == Ok(Some(Tag(Some(context), Some(value))))
  {
    var ws := [context, action, value];
    assert JoinWith(ws[1..], " ") == action + " " + value by {
      assert ws[1..][1..] == [value];
    }
    assert JoinWith(ws, " ") == context + " " + (action + " " + value);
    assert context + " " + (action + " " + value) == context + " " + action + " " + value;
    WordsJoin(ws);
    var taggings := TaggingHistories(hs);
    assert Words(Lookup(taggings[|taggings| - 1], "action_description").s) == ws;
  }

  // ---------------------------------------------------------------------
  // object_datamodel2_metadata_to_hyrax

  /** `datamodel_hash[:pid] || datamodel_hash[:identifier_uuid] ||
      generate_uuid`, with `generated` the identifier `generate_uuid` would
      give. */
  function Pid(datamodelHash: Entries, generated: string): (r: Value)
    ensures Truthy(r)
    ensures Truthy(Lookup(datamodelHash, "pid")) ==> r == Lookup(datamodelHash, "pid")
    ensures !Truthy(Lookup(datamodelHash, "pid")) && Truthy(Lookup(datamodelHash, "identifier_uuid")) ==>
              r == Lookup(datamodelHash, "identifier_uuid")
    ensures !Truthy(Lookup(datamodelHash, "pid")) && !Truthy(Lookup(datamodelHash, "identifier_uuid")) ==>
              r == Str(generated)
  {
    var pid := Lookup(datamodelHash, "pid");
    var uuid := Lookup(datamodelHash, "identifier_uuid");
    if Truthy(pid) then pid else if Truthy(uuid) then uuid else Str(generated)
  }

  /** `||` tests truthiness, not presence: an empty `pid` string is kept
      and no identifier is generated. */
  lemma EmptyPidKept(datamodelHash: Entries, generated: string)
    requires Lookup(datamodelHash, "pid") == Str("")
    ensures Pid(datamodelHash, generated) == Str("") && Blank(Pid(datamodelHash, generated))
  {
  }

  /** Lines 898-905: the entry whose date string is greatest gives the
      modification date when it is a non-empty hash with a present date;
      otherwise `today` (the start of the current day) is used. */
  function DefaultDateModified(datamodelHash: Entries, today: Value): (r: Result<Value, Exception>)
    ensures var history := Lookup(datamodelHash, "history");
      r.Err? <==> Present(history) && !(history.Arr? && HistoryEntries(history.items).Ok?)
    ensures Blank(Lookup(datamodelHash, "history")) ==> r == Ok(today)
  {
    var history := Lookup(datamodelHash, "history");
    if !Present(history) then Ok(today)
    else if !history.Arr? then
      Err(if history.Hash? then TypeError("no implicit conversion of Symbol into Integer") else NoMethodError("sort_by"))
    else
      match HistoryEntries(history.items)
      case Err(e) => Err(e)
      case Ok(hs) =>
        var last := LatestByDate(hs);
        if Present(Hash(last)) && Present(Lookup(last, "action_date")) then Ok(Lookup(last, "action_date")) else Ok(today)
  }

  /** Entry `i` of the history is a hash whose present date is `date` and
      whose date string is the greatest of all. */
  predicate IsLatestDate(items: seq<Value>, i: nat, date: Value)
    requires i < |items|
  {
    items[i].Hash? && date == Lookup(items[i].entries, "action_date") && Present(date) &&
    forall j :: 0 <= j < |items| ==> items[j].Hash? && LessEq(DateKey(items[j].entries), DateKey(items[i].entries))
  }

  /** The default date is `today` or the present date of an entry whose
      date string is greatest; when every entry has a present date, it is
      never `today`'s fallback. */
  lemma DefaultDateModifiedIsLatest(datamodelHash: Entries, today: Value)
    requires DefaultDateModified(datamodelHash, today).Ok?
    ensures var r := DefaultDateModified(datamodelHash, today).value;
      var history := Lookup(datamodelHash, "history");
      r == today || (history.Arr? && exists i :: 0 <= i < |history.items| && IsLatestDate(history.items, i, r))
    ensures var history := Lookup(datamodelHash, "history");
      history.Arr? && history.items != [] &&
      (forall j :: 0 <= j < |history.items| ==> history.items[j].Hash? && Present(Lookup(history.items[j].entries, "action_date"))) ==>
      exists i :: 0 <= i < |history.items| &&
        DefaultDateModified(datamodelHash, today).value == Lookup(history.items[i].entries, "action_date")
  {
    var history := Lookup(datamodelHash, "history");
    if Present(history) && history.Arr? {
      var hs := HistoryEntries(history.items).value;
      var last := LatestByDate(hs);
      var i :| 0 <= i < |hs| && hs[i] == last;
      assert history.items[i].entries == last;
      forall j | 0 <= j < |history.items|
        ensures history.items[j].Hash? && LessEq(DateKey(history.items[j].entries), DateKey(history.items[i].entries))
      {
        assert history.items[j].entries == hs[j];
      }
      var r := DefaultDateModified(datamodelHash, today).value;
      if r != today {
        assert IsLatestDate(history.items, i, r);
      }
      if forall j :: 0 <= j < |history.items| ==> history.items[j].Hash? && Present(Lookup(history.items[j].entries, "action_date")) {
        assert Present(Lookup(history.items[i].entries, "action_date"));
        assert Present(Hash(last)) by { assert last != []; }
      }
    }
  }

  // ---------------------------------------------------------------------
  // generate_uuid

  type Byte = x: int | 0 <= x < 256

  function HexDigit(d: nat): (c: char)
    requires d < 16
  {
    if d < 10 then ('0' as int + d) as char else ('a' as int + d - 10) as char
  }

  predicate IsHexDigit(c: char)
  {
    '0' <= c <= '9' || 'a' <= c <= 'f'
  }

  function Hex(bytes: seq<Byte>): (r: string)
    ensures |r| == 2 * |bytes|
    ensures forall i :: 0 <= i < |r| ==> IsHexDigit(r[i])
    ensures forall i :: 0 <= i < |bytes| ==> r[2 * i] == HexDigit(bytes[i] / 16) && r[2 * i + 1] == HexDigit(bytes[i] % 16)
  {
    if bytes == [] then ""
    else [HexDigit(bytes[0] / 16), HexDigit(bytes[0] % 16)] + Hex(bytes[1..])
  }

  /** `"uuid_#{SecureRandom.uuid}"`, for the sixteen random bytes the
      generator draws: RFC 4122 section 4.4 sets the version nibble to 4
      and the two variant bits to 10. */
  function GenerateUuid(random: seq<Byte>): (r: string)
    requires |random| == 16
    ensures |r| == 41 && r[..5] == "uuid_"
  {
    var b := Versioned(random);
    "uuid_" + Hex(b[0..4]) + "-" + Hex(b[4..6]) + "-" + Hex(b[6..8]) + "-" + Hex(b[8..10]) + "-" + Hex(b[10..16])
  }

  /** The shape of a version 4 UUID: 36 lower-case hexadecimal digits and
      dashes in 8-4-4-4-12 groups, after the `uuid_` prefix, with the
      version digit `4` and the variant digit one of `8`, `9`, `a`, `b`. */
  lemma GenerateUuidFormat(random: seq<Byte>)
    requires |random| == 16
    ensures var r := GenerateUuid(random);
      |r| == 41 && r[..5] == "uuid_" &&
      r[13] == '-' && r[18] == '-' && r[23] == '-' && r[28] == '-' &&
      (forall i :: 5 <= i < 41 && i != 13 && i != 18 && i != 23 && i != 28 ==> IsHexDigit(r[i])) &&
      r[19] == '4' && r[24] in "89ab"
  {
    var b := Versioned(random);
    var r := GenerateUuid(random);
    var g0, g1, g2, g3, g4 := Hex(b[0..4]), Hex(b[4..6]), Hex(b[6..8]), Hex(b[8..10]), Hex(b[10..16]);
    assert r == "uuid_" + g0 + "-" + g1 + "-" + g2 + "-" + g3 + "-" + g4;
    assert r[19] == g2[0] && g2[0] == HexDigit(b[6] / 16);
    assert r[24] == g3[0] && g3[0] == HexDigit(b[8] / 16);
    assert 8 <= b[8] / 16 < 12;
  }

  /** The sixteen bytes with the version and variant bits set. */
  function Versioned(random: seq<Byte>): (b: seq<Byte>)
    requires |random| == 16
    ensures |b| == 16
  {
    random[6 := 0x40 + random[6] % 16][8 := 0x80 + random[8] % 64]
  }

  lemma UuidGroups(random: seq<Byte>)
    requires |random| == 16
    ensures var r, b := GenerateUuid(random), Versioned(random);
      r[5..13] == Hex(b[0..4]) && r[14..18] == Hex(b[4..6]) && r[19..23] == Hex(b[6..8]) &&
      r[24..28] == Hex(b[8..10]) && r[29..41] == Hex(b[10..16])
  {
    var b := Versioned(random);
    var g0, g1, g2, g3, g4 := Hex(b[0..4]), Hex(b[4..6]), Hex(b[6..8]), Hex(b[8..10]), Hex(b[10..16]);
    assert GenerateUuid(random) == "uuid_" + g0 + "-" + g1 + "-" + g2 + "-" + g3 + "-" + g4;
  }

  lemma SplitSixteen(b: seq<Byte>)
    requires |b| == 16
    ensures b == b[0..4] + b[4..6] + b[6..8] + b[8..10] + b[10..16]
  {
  }

  /** Every bit the version and variant leave free is kept: two draws that
      give the same identifier agree on those bits. */
  lemma GenerateUuidKeepsRandomBits(x: seq<Byte>, y: seq<Byte>)
    requires |x| == 16 && |y| == 16 && GenerateUuid(x) == GenerateUuid(y)
    ensures forall i :: 0 <= i < 16 && i != 6 && i != 8 ==> x[i] == y[i]
    ensures x[6] % 16 == y[6] % 16 && x[8] % 64 == y[8] % 64
  {
    var bx, yb := Versioned(x), Versioned(y);
    UuidGroups(x);
    UuidGroups(y);
    HexInjective(bx[0..4], yb[0..4]);
    HexInjective(bx[4..6], yb[4..6]);
    HexInjective(bx[6..8], yb[6..8]);
    HexInjective(bx[8..10], yb[8..10]);
    HexInjective(bx[10..16], yb[10..16]);
    SplitSixteen(bx);
    SplitSixteen(yb);
    assert bx == yb;
    assert bx[6] == yb[6] && bx[8] == yb[8];
  }

  lemma HexDigitInjective(a: nat, b: nat)
    requires a < 16 && b < 16 && HexDigit(a) == HexDigit(b)
    ensures a == b
  {
  }

  lemma HexInjective(x: seq<Byte>, y: seq<Byte>)
    requires |x| == |y| && Hex(x) == Hex(y)
    ensures x == y
  {
    forall i | 0 <= i < |x|
      ensures x[i] == y[i]
    {
      HexDigitInjective(x[i] / 16, y[i] / 16);
      HexDigitInjective(x[i] % 16, y[i] % 16);
    }
  }
}
