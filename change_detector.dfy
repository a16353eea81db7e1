/**
 * The change check the admin page polls (`handle_check_files` in includes/class-import.php):
 * each listed dump file is fingerprinted as `filename|modified|size`, the fingerprints are
 * compared with the ones stored by the previous poll, and the current ones are stored.
 *
 * The file list is an input: `modified` is the `filemtime` value and `fileSize` the text
 * `size_format` gives, about which nothing is assumed.
 */
module ChangeDetector {
  import opened Text
  import opened Options

  /** One entry of `get_available_files`, as far as the fingerprint uses it. */
  datatype FileEntry = FileEntry(filename: string, modified: nat, fileSize: string)

  /** The fingerprint of a file: `filename|modified|file_size`. */
  function Hash(file: FileEntry): string {
    file.filename + "|" + NatToString(file.modified) + "|" + file.fileSize
  }

  /** The fingerprints of the files, in order. */
  function Hashes(files: seq<FileEntry>): (r: seq<string>)
    ensures |r| == |files| && forall i :: 0 <= i < |files| ==> r[i] == Hash(files[i])
  {
    seq(|files|, i requires 0 <= i < |files| => Hash(files[i]))
  }

  /** Some element of `xs` is not in `ys` (`!in_array` for one of them). */
  predicate SomeMissing(xs: seq<string>, ys: seq<string>) {
    exists k :: 0 <= k < |xs| && xs[k] !in ys
  }

  /**
   * The verdict of the check: a current fingerprint that was not stored, a different count, a
   * stored fingerprint that is gone, or a first check (nothing stored, some files).
   */
  predicate Changed(stored: seq<string>, current: seq<string>) {
    SomeMissing(current, stored) || |stored| != |current| || SomeMissing(stored, current)
    || (stored == [] && current != [])
  }

  /**
   * `handle_check_files` after its permission checks: fingerprint the files, compare with the
   * stored list, and store the current fingerprints in their place.
   */
  method HandleCheckFiles(store: OptionStore, currentFiles: seq<FileEntry>) returns (changed: bool)
    modifies store
    ensures changed == Changed(old(store.storedFiles), Hashes(currentFiles))
    ensures store.storedFiles == Hashes(currentFiles)
    ensures store.preset == old(store.preset) && store.tables == old(store.tables)
  {
    var storedFiles := store.storedFiles;
    var isFirstCheck := storedFiles == [] && currentFiles != [];
    changed := false;
    var fileHashes := [];
    for i := 0 to |currentFiles|
      invariant fileHashes == Hashes(currentFiles[..i])
      invariant changed == SomeMissing(fileHashes, storedFiles)
    {
      var fileHash := Hash(currentFiles[i]);
      fileHashes := fileHashes + [fileHash];
      if fileHash !in storedFiles {
        changed := true;
      }
      assert changed == SomeMissing(fileHashes, storedFiles) by {
        assert fileHashes[i] == fileHash;
        assert forall k :: 0 <= k < i ==> fileHashes[k] == fileHashes[..i][k];
      }
    }
    assert currentFiles[..|currentFiles|] == currentFiles;
    ghost var added := changed;
    if |storedFiles| != |fileHashes| {
      changed := true;
    }
    ghost var counted := changed;
    var j := 0;
    while j < |storedFiles|
      invariant 0 <= j <= |storedFiles|
      invariant changed == (counted || SomeMissing(storedFiles[..j], fileHashes))
    {
      if storedFiles[j] !in fileHashes {
        changed := true;
      }
      assert storedFiles[..j + 1][j] == storedFiles[j];
      assert forall k :: 0 <= k < j ==> storedFiles[..j + 1][k] == storedFiles[..j][k];
      j := j + 1;
    }
    assert storedFiles[..|storedFiles|] == storedFiles;
    if isFirstCheck {
      changed := true;
    }
    store.storedFiles := fileHashes;
  }

  /**
   * The verdict says `changed` exactly when the counts differ or some fingerprint is on one list
   * and not the other; the first-check case adds nothing, since it already changes the count.
   */
  lemma ChangedIff(stored: seq<string>, current: seq<string>)
    ensures Changed(stored, current)
        <==> |stored| != |current| || (set h | h in stored) != (set h | h in current)
  {
    var storedSet := set h | h in stored;
    var currentSet := set h | h in current;
    if storedSet != currentSet {
      if storedSet - currentSet != {} {
        var h :| h in storedSet - currentSet;
        var k :| 0 <= k < |stored| && stored[k] == h;
        assert SomeMissing(stored, current);
      } else {
        assert currentSet - storedSet != {};
        var h :| h in currentSet - storedSet;
        var k :| 0 <= k < |current| && current[k] == h;
        assert SomeMissing(current, stored);
      }
    }
    if SomeMissing(current, stored) {
      var k :| 0 <= k < |current| && current[k] !in stored;
      assert current[k] in currentSet;
    }
    if SomeMissing(stored, current) {
      var k :| 0 <= k < |stored| && stored[k] !in current;
      assert stored[k] in storedSet;
    }
  }

  /** A second poll over the same files reports no change. */
  lemma SecondPollUnchanged(files: seq<FileEntry>)
    ensures !Changed(Hashes(files), Hashes(files))
  {
    ChangedIff(Hashes(files), Hashes(files));
  }

  /** Numbers from ten on have at least two digits, the others exactly one. */
  lemma NatToStringLength(n: nat)
    ensures n < 10 <==> |NatToString(n)| == 1
  {
  }

  /** The decimal text of a number determines the number. */
  lemma {:induction false} NatToStringInjective(a: nat, b: nat)
    requires NatToString(a) == NatToString(b)
    ensures a == b
    decreases a
  {
    NatToStringLength(a);
    NatToStringLength(b);
    if a >= 10 {
      var sa := NatToString(a);
      assert sa[|sa| - 1] == DigitChar(a % 10) && sa[..|sa| - 1] == NatToString(a / 10);
      var sb := NatToString(b);
      assert sb[|sb| - 1] == DigitChar(b % 10) && sb[..|sb| - 1] == NatToString(b / 10);
      NatToStringInjective(a / 10, b / 10);
    } else {
      assert NatToString(a)[0] == DigitChar(a) && NatToString(b)[0] == DigitChar(b);
    }
  }

  /** Text before the first `|` is the same on both sides of an equation of `x|y` forms. */
  lemma SplitAtBar(a: string, b: string, c: string, d: string)
    requires '|' !in a && '|' !in c
    requires a + "|" + b == c + "|" + d
    ensures a == c && b == d
  {
    var s := a + "|" + b;
    assert s[|a|] == '|' && s[|c|] == '|';
    assert forall i :: 0 <= i < |a| ==> s[i] == a[i];
    assert forall i :: 0 <= i < |c| ==> s[i] == c[i];
    assert |a| == |c|;
    assert a == s[..|a|] && c == s[..|c|];
    assert b == s[|a| + 1..] && d == s[|c| + 1..];
  }

  /** Files whose names hold no `|` have distinct fingerprints when they differ at all. */
  lemma HashInjective(f: FileEntry, g: FileEntry)
    requires '|' !in f.filename && '|' !in g.filename
    requires Hash(f) == Hash(g)
    ensures f == g
  {
    HashParts(f);
    HashParts(g);
    SplitAtBar(f.filename, NatToString(f.modified) + "|" + f.fileSize, g.filename, NatToString(g.modified) + "|" + g.fileSize);
    NoBarInDigits(f.modified);
    NoBarInDigits(g.modified);
    SplitAtBar(NatToString(f.modified), f.fileSize, NatToString(g.modified), g.fileSize);
    NatToStringInjective(f.modified, g.modified);
  }

  /** The fingerprint as the name, a `|`, and the rest. */
  lemma HashParts(f: FileEntry)
    ensures Hash(f) == f.filename + "|" + (NatToString(f.modified) + "|" + f.fileSize)
  {
    var x := f.filename + "|";
    var n := NatToString(f.modified);
    AppendAssoc(x + n, "|", f.fileSize);
    AppendAssoc(x, n, "|" + f.fileSize);
    AppendAssoc(n, "|", f.fileSize);
  }

  /** A decimal text holds no `|`. */
  lemma NoBarInDigits(n: nat)
    ensures '|' !in NatToString(n)
  {
    var s := NatToString(n);
    forall i | 0 <= i < |s| ensures s[i] != '|' {
      assert IsDigit(s[i]);
    }
  }

  /**
   * After a poll stored the fingerprints of `before`, a file that is new, renamed, touched or
   * resized (an entry not in `before`) makes the next poll report a change, provided no file
   * name holds a `|`.
   */
  lemma UpdateDetected(before: seq<FileEntry>, after: seq<FileEntry>, k: nat)
    requires forall i :: 0 <= i < |before| ==> '|' !in before[i].filename
    requires k < |after| && '|' !in after[k].filename && after[k] !in before
    ensures Changed(Hashes(before), Hashes(after))
  {
    forall i | 0 <= i < |before| ensures Hashes(before)[i] != Hash(after[k]) {
      if Hash(before[i]) == Hash(after[k]) {
        HashInjective(before[i], after[k]);
      }
    }
    assert Hashes(after)[k] !in Hashes(before);
  }
}
