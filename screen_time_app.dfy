/**
 * The `ScreenTimeApp` object: where it looks for the usage database and how
 * each poll of that database changes the status-bar title.
 */
module ScreenTimeApp {
  import opened Options
  import opened TimeFormat

  const DbPathPrefix: string := "/System/Volumes/Data/Users/"
  const DbPathSuffix: string := "/Library/Application Support/Knowledge/knowledgeC.db"

  /** The title shown once initialisation has finished and before any poll succeeds. */
  const PendingTitle: string := "..."

  /**
   * The database path for the user named by the `USER` environment variable;
   * the empty path when the variable is missing (initialisation stops there).
   */
  function DbPath(user: Option<string>): (r: string)
    ensures r == "" <==> user.None?
    ensures user.Some? ==> |r| >= |DbPathPrefix| + |DbPathSuffix|
    ensures user.Some? ==> r[..|DbPathPrefix|] == DbPathPrefix && r[|r| - |DbPathSuffix|..] == DbPathSuffix
  {
    match user
    case Some(u) => DbPathPrefix + u + DbPathSuffix
    case None => ""
  }

  /** The user name a database path was built from, if it has the template's shape. */
  function UserOfDbPath(path: string): Option<string> {
    var lo, hi := |DbPathPrefix|, |path| - |DbPathSuffix|;
    if lo <= hi && path[..lo] == DbPathPrefix && path[hi..] == DbPathSuffix
    then Some(path[lo..hi])
    else None
  }

  /** The path determines the user it was built for. */
  lemma DbPathRoundTrip(user: Option<string>)
    ensures UserOfDbPath(DbPath(user)) == user
  {
  }

  /** What one run of the usage query gives back: its text, or a thrown error. */
  datatype Outcome = Ok(text: string) | Err

  /** An outcome the poll can handle; successful text with fewer than two pieces traps in `formatTime`. */
  predicate Handled(o: Outcome) {
    o.Ok? ==> Formattable(o.text)
  }

  /** The title after one poll: the formatted usage on success, the old title on error. */
  function NextTitle(title: string, o: Outcome): (t: string)
    requires Handled(o)
    ensures o.Err? ==> t == title
    ensures o.Ok? ==> ReadDisplay(t) == Some((PieceValue(o.text, 0), PieceValue(o.text, 1)))
  {
    match o
    case Ok(text) => FormatTimeReadsBack(text); FormatTime(text)
    case Err => title
  }

  /** The title after a run of polls, in the order they completed. */
  function TitleAfter(title: string, os: seq<Outcome>): (r: string)
    requires forall i :: 0 <= i < |os| ==> Handled(os[i])
    ensures (forall i :: 0 <= i < |os| ==> os[i].Err?) ==> r == title
    decreases |os|
  {
    if os == [] then title else TitleAfter(NextTitle(title, os[0]), os[1..])
  }

  /** The text of the last successful outcome, if any. */
  function LastSuccess(os: seq<Outcome>): (r: Option<string>)
    ensures r.Some? ==>
      exists i :: 0 <= i < |os| && os[i] == Ok(r.value) && forall j :: i < j < |os| ==> os[j].Err?
    ensures r.None? ==> forall i :: 0 <= i < |os| ==> os[i].Err?
  {
    if os == [] then None
    else match os[|os| - 1]
      case Ok(text) => Some(text)
      case Err =>
        var r := LastSuccess(os[..|os| - 1]);
        assert forall i :: 0 <= i < |os| - 1 ==> os[..|os| - 1][i] == os[i];
        r
  }

  /**
   * After any run of polls the title shows the last successful result; when
   * every poll failed it is still the title from before the run. Failures
   * never change what is shown.
   */
  lemma {:induction false} TitleShowsLastSuccess(title: string, os: seq<Outcome>)
    requires forall i :: 0 <= i < |os| ==> Handled(os[i])
    ensures TitleAfter(title, os) == match LastSuccess(os)
      case Some(text) => FormatTime(text)
      case None => title
    decreases |os|
  {
    if os != [] {
      var init, last := os[..|os| - 1], os[|os| - 1];
      assert os == init + [last];
      TitleAfterSnoc(title, init, last);
      TitleShowsLastSuccess(title, init);
    }
  }

  /** Running one more poll after a run of polls. */
  lemma {:induction false} TitleAfterSnoc(title: string, os: seq<Outcome>, o: Outcome)
    requires forall i :: 0 <= i < |os| ==> Handled(os[i])
    requires Handled(o)
    ensures forall i :: 0 <= i < |os + [o]| ==> Handled((os + [o])[i])
    ensures TitleAfter(title, os + [o]) == NextTitle(TitleAfter(title, os), o)
    decreases |os|
  {
    if os == [] {
      assert [o][1..] == [];
    } else {
      assert (os + [o])[1..] == os[1..] + [o];
      TitleAfterSnoc(NextTitle(title, os[0]), os[1..], o);
    }
  }

  /** What can call the poll: the repeating timer, or the "Force Refresh" menu item. */
  datatype Trigger = TimerTick | ForceRefresh

  /** The status-bar app: its database path and the title of its status item. */
  class StatusBarApp {
    var dbPath: string
    var title: string

    /**
     * Initialisation reads `USER`. Without it the path stays empty, the menus
     * are not built and the status item keeps its default, empty title.
     */
    constructor (user: Option<string>)
      ensures dbPath == DbPath(user)
      ensures title == if user.Some? then PendingTitle else ""
    {
      dbPath := DbPath(user);
      if user.Some? {
        title := PendingTitle;
      } else {
        title := "";
      }
    }

    /** One poll (`timerAction`): publish the formatted usage, or keep the title and log the error. */
    method Poll(o: Outcome)
      requires Handled(o)
      modifies this`title
      ensures title == NextTitle(old(title), o)
    {
      match o
      case Ok(text) =>
        title := FormatTime(text);
      case Err =>
    }

    /** Both triggers are bound to the same selector, so they make the same change. */
    method Fire(trigger: Trigger, o: Outcome)
      requires Handled(o)
      modifies this`title
      ensures title == NextTitle(old(title), o)
    {
      Poll(o);
    }

    /** Starting schedules the repeating timer and fires it once straight away. */
    method Start(first: Outcome)
      requires Handled(first)
      modifies this`title
      ensures title == NextTitle(old(title), first)
    {
      Fire(TimerTick, first);
    }
  }
}
