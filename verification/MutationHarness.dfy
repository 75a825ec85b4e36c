/** The mutation harness: it matches its edits on a view of the file with plain newlines,
    puts the file's own line ending back, runs a check, and restores the file. */
module MutationHarness {
  import opened Prelude

  const CR: char := '\r'
  const LF: char := '\n'

  // ---------------------------------------------------------------- line endings

  predicate LeadsCrlf(s: string) {
    |s| >= 2 && s[0] == CR && s[1] == LF
  }

  /** replace(CRLF, LF) */
  function ToLf(s: string): string
    decreases |s|
  {
    if s == [] then []
    else if LeadsCrlf(s) then [LF] + ToLf(s[2..])
    else [s[0]] + ToLf(s[1..])
  }

  /** replace(LF, CRLF) */
  function ToCrlf(s: string): string
    decreases |s|
  {
    if s == [] then []
    else if s[0] == LF then [CR, LF] + ToCrlf(s[1..])
    else [s[0]] + ToCrlf(s[1..])
  }

  predicate HasCrlf(s: string) {
    exists i | 0 <= i < |s| :: LeadsCrlf(s[i..])
  }

  /** Every newline is the second half of a CRLF. */
  predicate AllCrlf(s: string) {
    forall i | 0 <= i < |s| && s[i] == LF :: i > 0 && s[i - 1] == CR
  }

  /** Putting the endings in and taking them out again is the identity on every text. */
  lemma {:induction false} LfAfterCrlf(s: string)
    ensures ToLf(ToCrlf(s)) == s
    decreases |s|
  {
    if s != [] {
      var rest := ToCrlf(s[1..]);
      LfAfterCrlf(s[1..]);
      if s[0] == LF {
        assert ([CR, LF] + rest)[2..] == rest;
      } else {
        assert ([s[0]] + rest)[1..] == rest;
        if rest != [] { assert rest[0] != LF; }
      }
    }
  }

  /** The other way round it is the identity exactly on texts whose every LF follows a CR. */
  lemma {:induction false} CrlfAfterLf(s: string)
    ensures ToCrlf(ToLf(s)) == s <==> AllCrlf(s)
    decreases |s|
  {
    if s != [] {
      var n := if LeadsCrlf(s) then 2 else 1;
      CrlfAfterLf(s[n..]);
      AllCrlfTail(s, n);
      assert s == s[..n] + s[n..];
      if LeadsCrlf(s) {
        assert ([LF] + ToLf(s[2..]))[1..] == ToLf(s[2..]);
        assert ToCrlf(ToLf(s)) == [CR, LF] + ToCrlf(ToLf(s[2..]));
        assert s[..2] == [CR, LF];
        SameTail([CR, LF], ToCrlf(ToLf(s[2..])), s[2..]);
      } else {
        assert ([s[0]] + ToLf(s[1..]))[1..] == ToLf(s[1..]);
        if s[0] == LF {
          assert ToCrlf(ToLf(s))[0] == CR;
        } else {
          assert ToCrlf(ToLf(s)) == [s[0]] + ToCrlf(ToLf(s[1..]));
          SameTail([s[0]], ToCrlf(ToLf(s[1..])), s[1..]);
        }
      }
    }
  }

  lemma SameTail(head: string, a: string, b: string)
    ensures head + a == head + b <==> a == b
  {
    assert (head + a)[|head|..] == a && (head + b)[|head|..] == b;
  }

  lemma AllCrlfTail(s: string, n: nat)
    requires s != [] && n == if LeadsCrlf(s) then 2 else 1
    ensures AllCrlf(s) <==> s[0] != LF && AllCrlf(s[n..])
  {
  }

  // ---------------------------------------------------------------- edits

  datatype Edit = Edit(old_: string, new_: string)

  predicate OccursAt(text: string, part: string, i: nat) {
    i + |part| <= |text| && text[i..i + |part|] == part
  }

  predicate Occurs(text: string, part: string) {
    exists i | 0 <= i <= |text| :: OccursAt(text, part, i)
  }

  /** replace(old, new, 1): the first occurrence only. */
  function ReplaceFirst(text: string, e: Edit): string
    decreases |text|
  {
    if OccursAt(text, e.old_, 0) then e.new_ + text[|e.old_|..]
    else if text == [] then []
    else [text[0]] + ReplaceFirst(text[1..], e)
  }

  /** The replacement is of the first occurrence and leaves the rest of the text alone. */
  lemma {:induction false} ReplacesTheFirstOccurrence(text: string, e: Edit, i: nat)
    requires i <= |text| && OccursAt(text, e.old_, i) && forall j | 0 <= j < i :: !OccursAt(text, e.old_, j)
    ensures ReplaceFirst(text, e) == text[..i] + e.new_ + text[i + |e.old_|..]
    decreases i
  {
    assert i + |e.old_| <= |text|;
    hide OccursAt;
    if i > 0 {
      var rest := text[1..];
      TailOccurrence(text, e.old_, i);
      forall j | 0 <= j < i - 1
        ensures !OccursAt(rest, e.old_, j)
      {
        TailOccurrence(text, e.old_, j + 1);
      }
      ReplacesTheFirstOccurrence(rest, e, i - 1);
      Reassemble(text, i, e.new_, i + |e.old_|);
    } else {
      assert text[..0] + e.new_ == e.new_;
    }
  }

  lemma Reassemble(text: string, i: nat, mid: string, j: nat)
    requires 0 < i <= j <= |text|
    ensures [text[0]] + (text[1..][..i - 1] + mid + text[1..][j - 1..]) == text[..i] + mid + text[j..]
  {
  }

  lemma TailOccurrence(text: string, part: string, i: nat)
    requires 0 < i <= |text|
    ensures OccursAt(text, part, i) <==> OccursAt(text[1..], part, i - 1)
  {
  }

  /** All the edits in turn, None when an anchor is not there to match. */
  function Edited(text: string, edits: seq<Edit>): Option<string> {
    if edits == [] then Some(text)
    else match Edited(text, edits[..|edits| - 1])
      case None => None
      case Some(t) => if Occurs(t, edits[|edits| - 1].old_) then Some(ReplaceFirst(t, edits[|edits| - 1])) else None
  }

  lemma {:induction false} MissingAnchor(text: string, edits: seq<Edit>, n: nat)
    requires n <= |edits| && Edited(text, edits[..n]).None?
    ensures Edited(text, edits).None?
    decreases |edits|
  {
    if n < |edits| {
      assert edits[..|edits| - 1][..n] == edits[..n];
      MissingAnchor(text, edits[..|edits| - 1], n);
    } else {
      assert edits[..n] == edits;
    }
  }

  /** The text the check runs against. */
  function Mutated(text: string, edits: seq<Edit>): Option<string> {
    if HasCrlf(text) then
      match Edited(ToLf(text), edits)
      case None => None
      case Some(t) => Some(ToCrlf(t))
    else Edited(text, edits)
  }

  /** With no edits the file is written back as it was exactly when it has no CRLF at all
      or nothing but CRLF: a file of mixed endings is not put back by the view alone. */
  lemma NoEditsIsTheIdentityWhen(text: string)
    ensures Mutated(text, []) == Some(text) <==> !HasCrlf(text) || AllCrlf(text)
  {
    CrlfAfterLf(text);
  }

  predicate Contains(s: string, c: char) {
    exists i | 0 <= i < |s| :: s[i] == c
  }

  lemma {:induction false} CrlfOfNewlines(v: string)
    ensures HasCrlf(ToCrlf(v)) <==> Contains(v, LF)
    decreases |v|
  {
    if v != [] {
      hide HasCrlf, Contains;
      CrlfOfNewlines(v[1..]);
      assert v == [v[0]] + v[1..];
      ContainsCons(v[0], v[1..]);
      if v[0] == LF {
        CrlfLeads(ToCrlf(v[1..]));
      } else {
        CrlfCons(v[0], ToCrlf(v[1..]));
      }
    } else {
      assert !Contains(v, LF) && !HasCrlf(ToCrlf(v));
    }
  }

  lemma ContainsCons(c: char, s: string)
    ensures Contains([c] + s, LF) <==> c == LF || Contains(s, LF)
  {
    assert ([c] + s)[0] == c && forall i | 0 <= i < |s| :: ([c] + s)[i + 1] == s[i];
  }

  lemma CrlfLeads(s: string)
    ensures HasCrlf([CR, LF] + s)
  {
    var u := [CR, LF] + s;
    assert u[0..] == u && LeadsCrlf(u[0..]);
  }

  lemma CrlfCons(c: char, s: string)
    requires s != [] ==> s[0] != LF
    ensures HasCrlf([c] + s) <==> HasCrlf(s)
  {
    var u := [c] + s;
    assert forall i | 0 <= i < |s| :: u[i + 1..] == s[i..];
    assert u[0..] == u && !LeadsCrlf(u[0..]);
    if i :| 0 <= i < |s| && LeadsCrlf(s[i..]) { assert LeadsCrlf(u[i + 1..]); }
    if i :| 0 <= i < |u| && LeadsCrlf(u[i..]) { assert LeadsCrlf(s[i - 1..]); }
  }

  /** A file of CRLF lines is edited as the same text with plain newlines would be, and gets
      its own endings on every line, old or new; a file with no CRLF is edited as it is. */
  lemma EditsKeepTheFilesEnding(v: string, edits: seq<Edit>)
    ensures Contains(v, LF) ==>
        Mutated(ToCrlf(v), edits) == match Edited(v, edits) case None => None case Some(w) => Some(ToCrlf(w))
    ensures (forall i | 0 <= i < |v| - 1 :: !(v[i] == CR && v[i + 1] == LF)) ==> Mutated(v, edits) == Edited(v, edits)
  {
    hide Edited, ToLf, ToCrlf;
    CrlfOfNewlines(v);
    LfAfterCrlf(v);
    if HasCrlf(v) {
      var i :| 0 <= i < |v| && LeadsCrlf(v[i..]);
      assert v[i..][1] == v[i + 1];
    }
  }

  /** An edit alone is given up exactly where the text cannot be cut around its anchor. */
  lemma {:induction false} AnchorExactly(text: string, e: Edit)
    ensures Edited(text, [e]).None? <==> forall pre, post :: text != pre + e.old_ + post
  {
    hide ReplaceFirst, Occurs;
    OneEdit(text, e);
    CutAround(text, e.old_);
  }

  lemma {:induction false} CutAround(text: string, part: string)
    ensures Occurs(text, part) <==> exists pre, post :: text == pre + part + post
  {
    if Occurs(text, part) {
      var i :| 0 <= i <= |text| && OccursAt(text, part, i);
      assert text == text[..i] + part + text[i + |part|..];
    }
    if pre, post :| text == pre + part + post { CutIsOccurrence(pre, part, post); }
  }

  lemma CutIsOccurrence(pre: string, part: string, post: string)
    ensures OccursAt(pre + part + post, part, |pre|) && Occurs(pre + part + post, part)
  {
    assert OccursAt(pre + part + post, part, |pre|);
  }

  lemma OccurrenceIsCut(text: string, part: string, i: nat)
    requires i <= |text| && OccursAt(text, part, i)
    ensures text == text[..i] + part + text[i + |part|..]
  {
  }

  /** Otherwise it is made at the first such cut, and the text on either side stays. */
  lemma {:induction false} OneEditIsMadeAtTheFirstCut(pre: string, e: Edit, post: string)
    requires forall shorter, rest | |shorter| < |pre| :: pre + e.old_ + post != shorter + e.old_ + rest
    ensures Edited(pre + e.old_ + post, [e]) == Some(pre + e.new_ + post)
  {
    hide *;
    var text := pre + e.old_ + post;
    CutIsOccurrence(pre, e.old_, post);
    forall j | 0 <= j < |pre|
      ensures !OccursAt(text, e.old_, j)
    {
      if OccursAt(text, e.old_, j) { OccurrenceIsCut(text, e.old_, j); }
    }
    ReplacesTheFirstOccurrence(text, e, |pre|);
    assert text[..|pre|] == pre;
    assert text[|pre| + |e.old_|..] == post;
    OneEdit(text, e);
  }

  lemma OneEdit(text: string, e: Edit)
    ensures Edited(text, [e]) == if Occurs(text, e.old_) then Some(ReplaceFirst(text, e)) else None
  {
    hide ReplaceFirst, Occurs;
    assert [e][..0] == [];
    assert Edited(text, []) == Some(text);
  }

  /** A list of edits is its first part and then, on what that leaves, its second. */
  lemma {:induction false} EditsInTurn(text: string, a: seq<Edit>, b: seq<Edit>)
    ensures Edited(text, a + b) == match Edited(text, a) case None => None case Some(t) => Edited(t, b)
    decreases |b|
  {
    hide Occurs, ReplaceFirst;
    if b == [] {
      assert a + b == a;
    } else {
      var n := |b| - 1;
      assert (a + b)[..|a + b| - 1] == a + b[..n];
      EditsInTurn(text, a, b[..n]);
    }
  }

  // ---------------------------------------------------------------- one run

  /** The edit loop: text is rewritten edit by edit, given up at the first missing anchor. */
  method ApplyEdits(view: string, edits: seq<Edit>) returns (edited: Option<string>)
    ensures edited == Edited(view, edits)
  {
    hide Occurs, ReplaceFirst;
    var text := view;
    for i := 0 to |edits|
      invariant Edited(view, edits[..i]) == Some(text)
    {
      assert edits[..i + 1][..i] == edits[..i];
      if !Occurs(text, edits[i].old_) {
        MissingAnchor(view, edits, i + 1);
        return None;
      }
      text := ReplaceFirst(text, edits[i]);
    }
    assert edits[..|edits|] == edits;
    return Some(text);
  }

  type Bytes = seq<int>

  const UNNAMED := "unnamed"

  /** What the check does to the file, and whether running it raises. */
  datatype CheckRun = CheckRun(code: int, failing: seq<string>, marked: bool, leaves: Option<Bytes>, raises: bool)

  /** The restoring write puts the bytes it is given, or leaves something else. */
  datatype Restoring = Faithful | Spoils(left: Option<Bytes>, raises: bool)

  /** How the file system answers: whether the backup and the edited text can be written,
      what a failed write of the edited text leaves, and how the restoring write goes. */
  datatype Disk = Disk(backupWrites: bool, editWrites: bool, partial: Option<Bytes>, restoring: Restoring)

  datatype Outcome =
    | NoSuchFile
    | NoBackup
    | RestoreFailed
    | AnchorNotFound
    | Raised
    | Ran(failed: seq<string>, clean: bool)

  class Workspace {
    /** UTF-8 decoding and encoding, None where they raise. */
    const decode: Bytes -> Option<string>
    const encode: string -> Option<Bytes>
    var file: Option<Bytes>
    var backup: Option<Bytes>

    constructor (decode: Bytes -> Option<string>, encode: string -> Option<Bytes>, file: Option<Bytes>)
      ensures this.decode == decode && this.encode == encode && this.file == file && backup == None
    {
      this.decode, this.encode, this.file, backup := decode, encode, file, None;
    }

    /** The bytes the check is to run against, None where it is not reached. */
    ghost function Meant(original: Bytes, edits: seq<Edit>): Option<Bytes> {
      match decode(original)
      case None => None
      case Some(text) =>
        match Mutated(text, edits)
        case None => None
        case Some(t) => encode(t)
    }

    ghost predicate MissesAnchor(original: Bytes, edits: seq<Edit>) {
      decode(original).Some? && Mutated(decode(original).value, edits).None?
    }

    /** Every way out leaves the original in the file and removes the backup, or, where the
        restore itself failed and says so, leaves the original in the backup. The check saw
        exactly the edited text in the file's own endings. */
    method RunOne(edits: seq<Edit>, check: CheckRun, disk: Disk) returns (outcome: Outcome, seen: Option<Bytes>)
      modifies this
      ensures file == old(file) || (outcome == RestoreFailed && backup == old(file))
      ensures old(file).None? || !disk.backupWrites ==> file == old(file) && backup == old(backup)
      ensures old(file).Some? && disk.backupWrites ==> backup == if outcome == RestoreFailed then old(file) else None
      ensures outcome == NoSuchFile <==> old(file).None?
      ensures outcome == NoBackup <==> old(file).Some? && !disk.backupWrites
      ensures outcome == RestoreFailed <==>
          old(file).Some? && disk.backupWrites && disk.restoring.Spoils?
          && (disk.restoring.raises || disk.restoring.left != old(file))
      ensures seen == if old(file).Some? && disk.backupWrites
          && disk.editWrites then Meant(old(file).value, edits) else None
      ensures outcome.Ran? ==> seen.Some? && !check.raises && (outcome.clean <==> check.code == 0 && !check.marked)
      ensures outcome.Ran? ==> outcome.failed == if check.code != 0
          && check.failing == [] then [UNNAMED] else check.failing
      ensures seen.Some? && !check.raises && outcome != RestoreFailed ==> outcome.Ran?
      ensures outcome == AnchorNotFound <==>
          old(file).Some? && disk.backupWrites && outcome != RestoreFailed && MissesAnchor(old(file).value, edits)
    {
      hide Edited, HasCrlf;
      seen := None;
      if file.None? {
        return NoSuchFile, None;
      }
      var original := file.value;
      if !disk.backupWrites {
        return NoBackup, None;
      }
      backup := Some(original);
      outcome := Raised;
      var decoded := decode(original);
      if decoded.Some? {
        var text := decoded.value;
        var crlf := HasCrlf(text);
        if crlf {
          text := ToLf(text);
        }
        var edited := ApplyEdits(text, edits);
        if edited.None? {
          outcome := AnchorNotFound;
        } else {
          text := edited.value;
          if crlf {
            text := ToCrlf(text);
          }
          var bytes := encode(text);
          if bytes.Some? && !disk.editWrites {
            file := disk.partial;
          } else if bytes.Some? {
            file := bytes;
            seen := file;
            file := check.leaves;
            if !check.raises {
              var failed := check.failing;
              if check.code != 0 && failed == [] {
                failed := [UNNAMED];
              }
              outcome := Ran(failed, check.code == 0 && !check.marked);
            }
          }
        }
      }
      file := if disk.restoring.Spoils? then disk.restoring.left else Some(original);
      if (disk.restoring.Spoils? && disk.restoring.raises) || file != Some(original) {
        return RestoreFailed, seen;
      }
      backup := None;
    }
  }
}
