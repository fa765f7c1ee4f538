/** The recent list of wallet/src/command_palette.rs: bounded move-to-front. */
module CommandPalette {
  import opened Wrappers

  /** The fields `record_use` touches, and the name. */
  datatype PaletteCommand = PaletteCommand(id: string, name: string, useCount: nat, lastUsed: Option<string>)

  datatype PaletteError = CommandNotFound(id: string) | DuplicateCommand(id: string)

  /** `retain(|r| r != id)` */
  function Remove<T(==)>(s: seq<T>, id: T): seq<T> {
    if s == [] then []
    else
      var kept := Remove(s[..|s| - 1], id);
      if s[|s| - 1] == id then kept else kept + [s[|s| - 1]]
  }

  /** `truncate(n)` */
  function Take<T(==)>(s: seq<T>, n: nat): seq<T> {
    if |s| > n then s[..n] else s
  }

  /** The recent list after one more use. */
  function Touch<T(==)>(recent: seq<T>, id: T, maxRecent: nat): seq<T> {
    Take([id] + Remove(recent, id), maxRecent)
  }

  class CommandPalette {
    var commands: map<string, PaletteCommand>
    var recent: seq<string>
    const maxRecent: nat

    constructor ()
      ensures commands == map[] && recent == [] && maxRecent == 50
    {
      commands, recent, maxRecent := map[], [], 50;
    }

    method RegisterCommand(cmd: PaletteCommand) returns (r: Result<(), PaletteError>)
      modifies this
      ensures recent == old(recent)
      ensures r == if cmd.id in old(commands) then Err(DuplicateCommand(cmd.id)) else Ok(())
      ensures commands == if r.Ok? then old(commands)[cmd.id := cmd] else old(commands)
    {
      if cmd.id in commands {
        return Err(DuplicateCommand(cmd.id));
      }
      commands := commands[cmd.id := cmd];
      return Ok(());
    }

    /** A removed command stays in the recent list. */
    method RemoveCommand(id: string) returns (r: Result<PaletteCommand, PaletteError>)
      modifies this
      ensures recent == old(recent) && commands == old(commands) - {id}
      ensures r == if id in old(commands) then Ok(old(commands)[id]) else Err(CommandNotFound(id))
    {
      if id !in commands {
        assert commands - {id} == commands;
        return Err(CommandNotFound(id));
      }
      r := Ok(commands[id]);
      commands := commands - {id};
    }

    method RecordUse(id: string, now: string) returns (r: Result<(), PaletteError>)
      modifies this
      ensures r == if id in old(commands) then Ok(()) else Err(CommandNotFound(id))
      ensures r.Err? ==> commands == old(commands) && recent == old(recent)
      ensures r.Ok? ==>
                && recent == Touch(old(recent), id, maxRecent)
                && commands == old(commands)[id := old(commands)[id].(useCount := old(commands)[id].useCount + 1,
                                                                       lastUsed := Some(now))]
    {
      if id !in commands {
        return Err(CommandNotFound(id));
      }
      var cmd := commands[id];
      commands := commands[id := cmd.(useCount := cmd.useCount + 1, lastUsed := Some(now))];
      recent := Remove(recent, id);
      recent := [id] + recent;
      if |recent| > maxRecent {
        recent := recent[..maxRecent];
      }
      return Ok(());
    }
  }

  // ---- The recent list as a function of the use history ----

  /** The list after a sequence of successful uses, truncated at every step. */
  function RecentAfter<T(==)>(uses: seq<T>, maxRecent: nat): seq<T> {
    if uses == [] then [] else Touch(RecentAfter(uses[..|uses| - 1], maxRecent), uses[|uses| - 1], maxRecent)
  }

  function Reversed<T(==)>(s: seq<T>): seq<T> {
    if s == [] then [] else [s[|s| - 1]] + Reversed(s[..|s| - 1])
  }

  /** The first occurrence of each item, in order. */
  function FirstOccurrences<T(==)>(s: seq<T>): seq<T> {
    if s == [] then []
    else
      var init, last := s[..|s| - 1], s[|s| - 1];
      if last in init then FirstOccurrences(init) else FirstOccurrences(init) + [last]
  }

  ghost predicate Distinct<T>(s: seq<T>) {
    forall i, j :: 0 <= i < j < |s| ==> s[i] != s[j]
  }

  lemma {:induction false} FirstOccurrencesDistinct<T>(s: seq<T>)
    ensures Distinct(FirstOccurrences(s))
    ensures forall x :: x in FirstOccurrences(s) <==> x in s
  {
    if s != [] {
      FirstOccurrencesDistinct(s[..|s| - 1]);
      assert s == s[..|s| - 1] + [s[|s| - 1]];
    }
  }

  lemma OccurrencesAppended<T>(s: seq<T>, y: T)
    ensures FirstOccurrences(s + [y]) == if y in s then FirstOccurrences(s) else FirstOccurrences(s) + [y]
  {
    assert (s + [y])[..|s|] == s && (s + [y])[|s|] == y;
  }

  lemma RemoveAppended<T>(s: seq<T>, y: T, x: T)
    ensures Remove(s + [y], x) == if y == x then Remove(s, x) else Remove(s, x) + [y]
  {
    assert (s + [y])[..|s|] == s && (s + [y])[|s|] == y;
  }

  lemma {:induction false} PrependedOccurrence<T>(x: T, s: seq<T>)
    ensures FirstOccurrences([x] + s) == [x] + Remove(FirstOccurrences(s), x)
  {
    if s == [] {
      assert [x] + s == [] + [x];
      OccurrencesAppended([], x);
    } else {
      PrependedOccurrence(x, s[..|s| - 1]);
      PrependedToAppended(x, s[..|s| - 1], s[|s| - 1]);
      assert s == s[..|s| - 1] + [s[|s| - 1]];
    }
  }

  lemma OccurrencesOfBoth<T>(x: T, s: seq<T>, y: T)
    ensures FirstOccurrences([x] + (s + [y]))
            == if y == x || y in s then FirstOccurrences([x] + s) else FirstOccurrences([x] + s) + [y]
  {
    assert [x] + (s + [y]) == ([x] + s) + [y];
    OccurrencesAppended([x] + s, y);
    assert y in [x] + s <==> y == x || y in s;
  }

  lemma RemovedFromBoth<T>(x: T, s: seq<T>, y: T)
    ensures Remove(FirstOccurrences(s + [y]), x)
            == if y == x || y in s then Remove(FirstOccurrences(s), x) else Remove(FirstOccurrences(s), x) + [y]
  {
    OccurrencesAppended(s, y);
    if y !in s {
      RemoveAppended(FirstOccurrences(s), y, x);
    }
  }

  lemma Regroup<T>(a: seq<T>, b: seq<T>, c: seq<T>)
    ensures (a + b) + c == a + (b + c)
  {
  }

  lemma PrependedToAppended<T>(x: T, s: seq<T>, y: T)
    requires FirstOccurrences([x] + s) == [x] + Remove(FirstOccurrences(s), x)
    ensures FirstOccurrences([x] + (s + [y])) == [x] + Remove(FirstOccurrences(s + [y]), x)
  {
    OccurrencesOfBoth(x, s, y);
    RemovedFromBoth(x, s, y);
    Regroup([x], Remove(FirstOccurrences(s), x), [y]);
  }

  /** Removing from a prefix gives a prefix of what removing gives, one shorter than the prefix at most. */
  lemma {:induction false} RemoveFromPrefix<T>(s: seq<T>, n: nat, x: T)
    requires n <= |s| && Distinct(s)
    ensures Remove(s[..n], x) <= Remove(s, x)
    ensures n <= |Remove(s[..n], x)| + 1 && (x !in s[..n] ==> |Remove(s[..n], x)| == n)
    decreases |s|
  {
    if n == |s| {
      assert s[..n] == s;
      if s != [] {
        RemoveFromPrefix(s[..n - 1], n - 1, x);
        assert s[..n - 1][..n - 1] == s[..n - 1];
      }
    } else {
      RemoveFromPrefix(s[..|s| - 1], n, x);
      assert s[..|s| - 1][..n] == s[..n];
    }
  }

  /** Truncating before a use makes no difference after it. */
  lemma TouchTruncated<T>(s: seq<T>, x: T, n: nat)
    requires Distinct(s)
    ensures Touch(Take(s, n), x, n) == Take([x] + Remove(s, x), n)
  {
    if |s| > n {
      RemoveFromPrefix(s, n, x);
      var short, long := Remove(s[..n], x), Remove(s, x);
      assert n <= |[x] + short| && [x] + short <= [x] + long;
    }
  }

  /** After any sequence of successful uses the recent list is the reversed history without repeats, cut to
      the maximum once. */
  lemma {:induction false} RecentIsRecency<T>(uses: seq<T>, maxRecent: nat)
    ensures var all := FirstOccurrences(Reversed(uses));
            RecentAfter(uses, maxRecent) == if |all| > maxRecent then all[..maxRecent] else all
  {
    if uses != [] {
      var init, last := uses[..|uses| - 1], uses[|uses| - 1];
      RecentIsRecency(init, maxRecent);
      FirstOccurrencesDistinct(Reversed(init));
      TouchTruncated(FirstOccurrences(Reversed(init)), last, maxRecent);
      PrependedOccurrence(last, Reversed(init));
    }
  }
}
