// The durable list of finished names (internal/checkpoint/checkpoint.go).
module Checkpoint {
  // The file, which outlives the process. Names hold no line breaks, so it is a list of lines.
  class File {
    var lines: seq<string>
    var healthy: bool

    constructor ()
      ensures lines == [] && healthy
    {
      lines, healthy := [], true;
    }
  }

  class Checkpoint {
    const file: File
    var done: set<string>

    // Reads what an earlier run left. An empty line names nothing.
    constructor Open(file: File)
      ensures this.file == file
      ensures forall name :: name in done <==> name in file.lines && name != ""
    {
      this.file := file;
      this.done := {};
      new;
      for i := 0 to |file.lines|
        invariant this.file == file
        invariant forall name :: name in done <==> name in file.lines[..i] && name != ""
      {
        if file.lines[i] != "" {
          done := done + {file.lines[i]};
        }
      }
      assert file.lines[..|file.lines|] == file.lines;
    }

    predicate Has(name: string)
      reads this
    {
      name in done
    }

    // The names an earlier run did not record.
    method Unrecorded(names: seq<string>) returns (jobs: seq<string>)
      ensures forall n :: n in jobs <==> n in names && !Has(n)
    {
      jobs := [];
      for i := 0 to |names|
        invariant forall n :: n in jobs <==> n in names[..i] && !Has(n)
      {
        if !Has(names[i]) {
          jobs := jobs + [names[i]];
        }
      }
      assert names[..|names|] == names;
    }

    // Appends the names one line at a time; unless the file is healthy it may stop after any of them.
    method Record(names: seq<string>) returns (ok: bool, ghost recorded: nat)
      modifies this, file`lines
      ensures recorded <= |names| && (ok ==> recorded == |names|)
      ensures file.healthy ==> ok
      ensures file.lines == old(file.lines) + names[..recorded]
      ensures done == old(done) + (set i | 0 <= i < recorded :: names[i])
    {
      recorded := 0;
      for i := 0 to |names|
        invariant recorded == i
        invariant file.lines == old(file.lines) + names[..i]
        invariant done == old(done) + (set j | 0 <= j < i :: names[j])
      {
        var stopped := *;
        if stopped && !file.healthy {
          return false, recorded;
        }
        file.lines := file.lines + [names[i]];
        done := done + {names[i]};
        recorded := i + 1;
      }
      var synced := *;
      ok := file.healthy || synced;
    }
  }

  // Whichever job's result comes in next.
  method NextToArrive(jobs: seq<string>) returns (name: string, rest: seq<string>)
    requires jobs != []
    ensures |rest| < |jobs|
    ensures forall n :: n in jobs <==> n == name || n in rest
  {
    var next :| 0 <= next < |jobs|;
    name, rest := jobs[next], jobs[..next] + jobs[next + 1..];
  }

  // Every name is recorded, still to arrive, waiting to be flushed, or missing.
  ghost predicate Accounted(names: seq<string>, lines: seq<string>, jobs: seq<string>, gathered: seq<string>, missing: set<string>) {
    forall n :: n in names ==> n in lines || n in jobs || n in gathered || n in missing
  }

  // The names there is something to read for.
  ghost function KnownAmong(names: seq<string>, known: set<string>): (these: seq<string>)
    ensures forall n :: n in these <==> n in names && n in known
  {
    if names == [] then []
    else KnownAmong(names[..|names| - 1], known) + if names[|names| - 1] in known then [names[|names| - 1]] else []
  }

  lemma KnownAreRecorded(names: seq<string>, known: set<string>, lines: seq<string>, missing: set<string>)
    requires forall i :: 0 <= i < |names| ==> names[i] in lines || names[i] in missing
    requires missing * known == {}
    ensures forall i :: 0 <= i < |KnownAmong(names, known)| ==> KnownAmong(names, known)[i] in lines
  {
    var these := KnownAmong(names, known);
    forall i | 0 <= i < |these| ensures these[i] in lines {
      assert these[i] in these;
      var j :| 0 <= j < |names| && names[j] == these[i];
      assert these[i] !in missing * known;
    }
  }
}
