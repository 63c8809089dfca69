/** The download side of canvas.py: class `DownloadList`, a table of rows
    (name, status text, progress bar) driven by one integer progress value per
    callback. Values 0..100 report the download, values from 150 up the
    installation, and 200 its end. */
module Downloads {

  const STARTING := "Starting download..."
  const DOWNLOADING := "Downloading..."
  const INSTALLING := "Installing..."
  const INSTALLED := "Installed!"

  /** One row of the download list store. */
  datatype Download = Download(name: string, status: string, bar: int)

  /** The phase a row's status text shows. */
  datatype State = Starting | Downloading | Installing | Installed | Other

  function StateOf(text: string): State {
    if text == STARTING then Starting
    else if text == DOWNLOADING then Downloading
    else if text == INSTALLING then Installing
    else if text == INSTALLED then Installed
    else Other
  }

  /** The row after one progress callback, as a table of disjoint ranges.
      Its contract is what the sequence of overlapping checks in
      `set_download_progress` promises for each range. */
  function Progressed(d: Download, progress: int): (r: Download)
    ensures r.name == d.name
    ensures progress <= 100 ==> r.bar == progress
    ensures 100 < progress < 150 ==> r.bar == d.bar
    ensures progress >= 150 ==> r.bar == 100
    ensures progress <= 0 ==> r.status == d.status
    ensures 0 < progress < 150 ==> r.status == DOWNLOADING
    ensures progress >= 150 && progress != 200 ==> r.status == INSTALLING
    ensures progress == 200 ==> r.status == INSTALLED
  {
    if progress <= 0 then Download(d.name, d.status, progress)
    else if progress <= 100 then Download(d.name, DOWNLOADING, progress)
    else if progress < 150 then Download(d.name, DOWNLOADING, d.bar)
    else if progress == 200 then Download(d.name, INSTALLED, 100)
    else Download(d.name, INSTALLING, 100)
  }

  /** The phase shown after a positive progress value depends on that value
      alone, whatever the row showed before. */
  lemma StateAfter(d: Download, progress: int)
    requires progress > 0
    ensures StateOf(Progressed(d, progress).status) ==
      if progress < 150 then Downloading
      else if progress == 200 then Installed
      else Installing
  {
  }

  /** Nothing orders the callbacks: a later value overwrites an earlier one
      outright, except that 101..149 keeps the bar and values up to 0 keep
      the status text. */
  lemma LastValueWins(d: Download, earlier: int, later: int)
    requires later > 0 && !(100 < later < 150)
    ensures Progressed(Progressed(d, earlier), later) == Progressed(d, later)
  {
  }

  /** The row after the callbacks `ps`, delivered in order. */
  function Replay(d: Download, ps: seq<int>): (r: Download)
    ensures r.name == d.name
    decreases |ps|
  {
    if ps == [] then d else Replay(Progressed(d, ps[0]), ps[1..])
  }

  /** One more callback after `ps` acts on the row `ps` left. */
  lemma {:induction false} ReplayLast(d: Download, ps: seq<int>, p: int)
    ensures Replay(d, ps + [p]) == Progressed(Replay(d, ps), p)
    decreases |ps|
  {
    if ps == [] {
      assert [p][1..] == [];
    } else {
      assert (ps + [p])[1..] == ps[1..] + [p];
      ReplayLast(Progressed(d, ps[0]), ps[1..], p);
    }
  }

  /** Whatever came before, a final 200 leaves the row installed with a
      full bar. */
  lemma EndsInstalled(d: Download, ps: seq<int>)
    ensures Replay(d, ps + [200]) == Download(d.name, INSTALLED, 100)
  {
    ReplayLast(d, ps, 200);
  }

  /** A value below 150 arriving after the installation started moves the
      row back to downloading: no check keeps progress moving forward. */
  lemma OutOfOrderRegresses(name: string)
    ensures Replay(Download(name, STARTING, 0), [150, 90]) == Download(name, DOWNLOADING, 90)
  {
    var d := Download(name, STARTING, 0);
    assert [150, 90][1..] == [90];
    assert [90][1..] == [];
    assert Replay(d, [150, 90]) == Replay(Progressed(d, 150), [90]);
    assert Replay(Progressed(d, 150), [90]) == Progressed(Progressed(d, 150), 90);
  }

  class DownloadList {
    /** The rows of the download list store, in the order they were added;
        a row's handle is its position. */
    var rows: seq<Download>

    constructor ()
      ensures rows == []
    {
      rows := [];
    }

    /** `add_download`: append a row for `name` that is starting, with an
        empty bar, and return its handle. */
    method AddDownload(name: string) returns (handle: nat)
      modifies this
      ensures rows == old(rows) + [Download(name, STARTING, 0)]
      ensures handle == |old(rows)| && rows[handle].name == name
    {
      handle := |rows|;
      rows := rows + [Download(name, STARTING, 0)];
    }

    /** `set_download_progress`: four checks in sequence, each overwriting
        what the one before wrote; only the addressed row changes. */
    method SetDownloadProgress(id: nat, progress: int)
      requires id < |rows|
      modifies this
      ensures |rows| == |old(rows)|
      ensures rows[id] == Progressed(old(rows)[id], progress)
      ensures forall j :: 0 <= j < |rows| && j != id ==> rows[j] == old(rows)[j]
    {
      if progress <= 100 {
        rows := rows[id := rows[id].(bar := progress)];
      }
      if progress > 0 {
        rows := rows[id := rows[id].(status := DOWNLOADING)];
      }
      if progress >= 150 {
        rows := rows[id := rows[id].(status := INSTALLING)];
        rows := rows[id := rows[id].(bar := 100)];
      }
      if progress == 200 {
        rows := rows[id := rows[id].(status := INSTALLED)];
      }
    }
  }

  /** The sequence of callbacks of a download that runs to completion:
      starting, half downloaded, installing, installed. */
  method CompleteDownload(name: string) returns (states: seq<State>, bars: seq<int>, last: Download)
    ensures states == [Starting, Downloading, Installing, Installed]
    ensures bars == [0, 50, 100, 100]
    ensures last == Download(name, INSTALLED, 100)
  {
    var list := new DownloadList();
    var handle := list.AddDownload(name);
    list.SetDownloadProgress(handle, 0);
    var s0, b0 := StateOf(list.rows[handle].status), list.rows[handle].bar;
    list.SetDownloadProgress(handle, 50);
    var s1, b1 := StateOf(list.rows[handle].status), list.rows[handle].bar;
    list.SetDownloadProgress(handle, 150);
    var s2, b2 := StateOf(list.rows[handle].status), list.rows[handle].bar;
    list.SetDownloadProgress(handle, 200);
    var s3, b3 := StateOf(list.rows[handle].status), list.rows[handle].bar;
    states, bars, last := [s0, s1, s2, s3], [b0, b1, b2, b3], list.rows[handle];
  }
}
