/**
 The state of the job analysis page and its `analyzeJob` handler: the text
 in the description box, whether an analysis is running, and the last result.
 */
module JobAnalysis {
  import opened Strings
  import opened Classifier

  datatype Option<T> = None | Some(value: T)

  /** The guard `!jobDescription.trim()`: the description is nothing but
      whitespace. It is evaluated as that character check; `BlankIffTrimEmpty`
      shows it is the same test as trimming to the empty string. */
  predicate IsBlank(description: string) {
    AllWhitespace(description)
  }

  /** The guard holds exactly when `trim` leaves the empty string. */
  lemma BlankIffTrimEmpty(description: string)
    ensures IsBlank(description) <==> Trim(description) == []
  {
  }

  class JobAnalysisPage {
    var jobDescription: string
    var isAnalyzing: bool
    var result: Option<AnalysisResult>
    /** The description the run in progress was started on: the value the
        handler's closure captured when the button was pressed. */
    var running: Option<string>

    /** A run is in progress exactly when a captured description exists, and
        that description is never blank; while a run is in progress no result
        is shown; every result shown has the shape the classifier gives it. */
    ghost predicate Valid()
      reads this
    {
      (isAnalyzing <==> running.Some?) &&
      (running.Some? ==> !IsBlank(running.value)) &&
      (isAnalyzing ==> result.None?) &&
      (result.Some? ==> WellFormed(result.value))
    }

    /** The page starts with an empty box, idle, with no result. */
    constructor ()
      ensures Valid()
      ensures jobDescription == [] && !isAnalyzing && result == None && running == None
    {
      jobDescription := [];
      isAnalyzing := false;
      result := None;
      running := None;
    }

    /** Typing in the description box replaces its text and nothing else. */
    method SetJobDescription(text: string)
      requires Valid()
      modifies this
      ensures Valid()
      ensures jobDescription == text
      ensures isAnalyzing == old(isAnalyzing) && result == old(result) && running == old(running)
    {
      jobDescription := text;
    }

    /** The handler up to its suspension point. It is only reachable while
        idle, because the button is disabled during a run. A blank
        description is rejected and leaves the page as it was (a previous
        result stays shown); otherwise the page enters the analysing state
        with no result, and the run captures the current description. */
    method Begin() returns (accepted: bool)
      requires Valid() && !isAnalyzing
      modifies this
      ensures Valid()
      ensures accepted <==> !IsBlank(old(jobDescription))
      ensures !accepted ==> unchanged(this)
      ensures accepted ==>
        isAnalyzing && result.None? && running.Some? && running.value == old(jobDescription) &&
        jobDescription == old(jobDescription)
    {
      accepted := !IsBlank(jobDescription);
      if accepted {
        isAnalyzing, result, running := true, None, Some(jobDescription);
      }
    }

    /** The handler after its delay: the result of classifying the
        description the run captured is shown and the page is idle again.
        The box may have been edited meanwhile; its text is left alone. */
    method Settle()
      requires Valid() && isAnalyzing
      modifies this
      ensures Valid()
      ensures jobDescription == old(jobDescription)
      ensures result == Some(Classify(old(running).value))
      ensures !isAnalyzing && running == None
    {
      var description := running.value;
      var r := Classify(description);
      assert WellFormed(r);
      isAnalyzing, result, running := false, Some(r), None;
      assert Valid();
    }

    /** One whole press of the button with no edit during the delay: blank
        input changes nothing; otherwise the page ends idle, showing the
        classification of the description. */
    method Analyze()
      requires Valid() && !isAnalyzing
      modifies this
      ensures Valid()
      ensures jobDescription == old(jobDescription)
      ensures IsBlank(old(jobDescription)) ==> unchanged(this)
      ensures !IsBlank(old(jobDescription)) ==>
        result == Some(Classify(old(jobDescription))) && !isAnalyzing && running == None
    {
      var accepted := Begin();
      if accepted {
        Settle();
      }
    }
  }
}
