/**
 * The checks `transcribe_endpoint` makes before it touches the disk or a
 * model: the upload's extension, then the model size, then the task. The
 * first check that fails ends the request with an HTTP 400 whose detail
 * names what was wrong.
 */
module Validation {

  import opened PyStr

  const AllowedExtensions: set<string> := {".wav", ".mp3", ".m4a", ".flac"}
  const ValidModels: set<string> := {"tiny", "base", "small", "medium", "large"}
  const ValidTasks: set<string> := {"transcribe", "translate"}

  /** Which check failed; an unsupported type carries the extension seen. */
  datatype Rejection = UnsupportedFileType(ext: string) | InvalidModelSize | InvalidTask

  datatype Verdict = Ok | Rejected(reason: Rejection, detail: string)

  /** The order in which the running interpreter iterates over the three
      constant sets when it formats them. It depends on the process's string
      hash seed, so the model takes it as given. */
  datatype SetOrders = SetOrders(extensions: seq<string>, models: seq<string>, tasks: seq<string>)

  /** `os.path.splitext(filename)[1].lower()` */
  function Extension(filename: string, f: Flavor): string {
    Lower(Ext(filename, f))
  }

  /** The extension checked is empty exactly when `splitext` finds none;
      otherwise it is a '.' followed by characters that are neither '.' nor
      a separator; it holds no upper-case ASCII letter. */
  lemma ExtensionShape(filename: string, f: Flavor)
    ensures var e := Extension(filename, f);
            && (e == [] <==> ExtStart(filename, f) == |filename|)
            && (e != [] ==> e[0] == '.' && forall k :: 1 <= k < |e| ==> e[k] != '.' && e[k] !in Seps(f))
            && (forall k :: 0 <= k < |e| ==> !('A' <= e[k] <= 'Z'))
  {
  }

  /** `repr` of a string that holds no quote, backslash or control character,
      which is true of every member of the three sets. */
  function Quoted(s: string): string {
    "'" + s + "'"
  }

  function JoinQuoted(items: seq<string>): string {
    if |items| == 0 then ""
    else if |items| == 1 then Quoted(items[0])
    else Quoted(items[0]) + ", " + JoinQuoted(items[1..])
  }

  /** How an f-string renders a set of such strings, listed in `order`. */
  function SetRepr(order: seq<string>): string {
    if order == [] then "set()" else "{" + JoinQuoted(order) + "}"
  }

  /** The `detail` of the HTTP 400 raised for each rejection. */
  function Detail(r: Rejection, o: SetOrders): string {
    match r
    case UnsupportedFileType(ext) => UnsupportedPrefix + ext + ". Allowed: " + SetRepr(o.extensions)
    case InvalidModelSize => "Invalid model size. Choose from: " + SetRepr(o.models)
    case InvalidTask => "Invalid task. Choose from: " + SetRepr(o.tasks)
  }

  /** The validation prefix of the endpoint. The request passes exactly when
      all three checks pass, and a rejection carries the detail of its own
      reason. */
  function Validate(filename: string, modelSize: string, task: string, f: Flavor, o: SetOrders): (v: Verdict)
    ensures v.Ok? <==> Extension(filename, f) in AllowedExtensions && modelSize in ValidModels && task in ValidTasks
    ensures v.Rejected? ==> v.detail == Detail(v.reason, o)
  {
    var ext := Extension(filename, f);
    if ext !in AllowedExtensions then Rejected(UnsupportedFileType(ext), Detail(UnsupportedFileType(ext), o))
    else if modelSize !in ValidModels then Rejected(InvalidModelSize, Detail(InvalidModelSize, o))
    else if task !in ValidTasks then Rejected(InvalidTask, Detail(InvalidTask, o))
    else Ok
  }

  /** The checks run in a fixed order and the first one that fails is the one
      reported, whatever the later inputs are. */
  lemma FirstFailingCheckIsReported(filename: string, modelSize: string, task: string, f: Flavor, o: SetOrders)
    ensures var v := Validate(filename, modelSize, task, f, o);
            var ext := Extension(filename, f);
            && (ext !in AllowedExtensions ==> v.Rejected? && v.reason == UnsupportedFileType(ext))
            && (ext in AllowedExtensions && modelSize !in ValidModels ==> v.Rejected? && v.reason == InvalidModelSize)
            && (ext in AllowedExtensions && modelSize in ValidModels && task !in ValidTasks ==> v.Rejected? && v.reason == InvalidTask)
  {
  }

  // ---------------------------------------------------------------------------
  // The extension check, stated without splitext
  // ---------------------------------------------------------------------------

  /** The last |e| characters of `p`, lower-cased, spell `e`. */
  predicate HasCaselessSuffix(p: string, e: string) {
    |e| <= |p| && Lower(p[|p| - |e|..]) == e
  }

  /** Some character of the final path component of `p`, before its last `n`
      characters, is not a '.': the name is not a bare "hidden file". */
  predicate StemHasNonDot(p: string, n: nat, f: Flavor)
    requires n <= |p|
  {
    exists i :: 0 <= i < |p| - n && p[i] != '.' && NoSepFrom(p, i, |p| - n, f)
  }

  predicate NoSepFrom(p: string, lo: int, hi: int, f: Flavor)
    requires 0 <= lo <= hi <= |p|
  {
    forall j :: lo <= j < hi ==> p[j] !in Seps(f)
  }

  predicate IsLowerAlnum(c: char) {
    ('a' <= c <= 'z') || ('0' <= c <= '9')
  }

  /** Every allowed extension is a '.' followed by lower-case letters and digits. */
  lemma AllowedExtensionShape(e: string)
    requires e in AllowedExtensions
    ensures |e| >= 2 && e[0] == '.'
    ensures forall k :: 1 <= k < |e| ==> IsLowerAlnum(e[k])
  {
  }

  /** The extension check is a case-insensitive suffix test: an upload passes
      it exactly when its name ends, in any case, with one of the allowed
      extensions and the final path component has a character other than '.'
      before that ending. */
  lemma ExtensionAllowedIff(p: string, f: Flavor)
    ensures Extension(p, f) in AllowedExtensions <==>
            exists e :: e in AllowedExtensions && HasCaselessSuffix(p, e) && StemHasNonDot(p, |e|, f)
  {
    if Extension(p, f) in AllowedExtensions {
      AllowedEndsWithExtension(p, f);
    }
    if exists e :: e in AllowedExtensions && HasCaselessSuffix(p, e) && StemHasNonDot(p, |e|, f) {
      var e :| e in AllowedExtensions && HasCaselessSuffix(p, e) && StemHasNonDot(p, |e|, f);
      EndingWithExtensionIsAllowed(p, f, e);
    }
  }

  /** One direction of ExtensionAllowedIff: what passes ends with its extension. */
  lemma AllowedEndsWithExtension(p: string, f: Flavor)
    requires Extension(p, f) in AllowedExtensions
    ensures HasCaselessSuffix(p, Extension(p, f)) && StemHasNonDot(p, |Extension(p, f)|, f)
  {
    var e := Extension(p, f);
    AllowedExtensionShape(e);
    NonEmptyExt(p, f);
    var i :| LastSep(p, f) < i < RFind(p, '.') && p[i] != '.';
    assert NoSepFrom(p, i, |p| - |e|, f);
  }

  /** The other direction of ExtensionAllowedIff. */
  lemma EndingWithExtensionIsAllowed(p: string, f: Flavor, e: string)
    requires e in AllowedExtensions && HasCaselessSuffix(p, e) && StemHasNonDot(p, |e|, f)
    ensures Extension(p, f) == e
  {
    AllowedExtensionShape(e);
    var m := |p| - |e|;
    var i :| 0 <= i < m && p[i] != '.' && NoSepFrom(p, i, m, f);
    SuffixCharacters(p, e, m);
    ExtAt(p, f, i, m);
  }

  /** What a lower-cased allowed ending says about the characters under it:
      the first is '.', the others are neither '.' nor a separator. */
  lemma SuffixCharacters(p: string, e: string, m: nat)
    requires m == |p| - |e| && |e| >= 2 && e[0] == '.'
    requires Lower(p[m..]) == e
    requires forall k :: 1 <= k < |e| ==> IsLowerAlnum(e[k])
    ensures p[m] == '.'
    ensures forall j :: m < j < |p| ==> p[j] != '.' && p[j] != '/' && p[j] != '\\'
  {
    assert LowerChar(p[m]) == e[0];
    forall j | m < j < |p|
      ensures p[j] != '.' && p[j] != '/' && p[j] != '\\'
    {
      assert LowerChar(p[j]) == e[j - m];
    }
  }

  // ---------------------------------------------------------------------------
  // Rejection details
  // ---------------------------------------------------------------------------

  /** `q` occurs in `d` starting at index `i`. */
  predicate OccursAt(q: string, d: string, i: int) {
    0 <= i <= |d| - |q| && d[i..i + |q|] == q
  }

  /** `q` occurs in `d` as a contiguous piece. */
  predicate Occurs(q: string, d: string) {
    exists i :: 0 <= i <= |d| && OccursAt(q, d, i)
  }

  /** What occurs in a part occurs in the whole. */
  lemma OccursAppend(q: string, a: string, b: string)
    ensures Occurs(q, a) ==> Occurs(q, a + b)
    ensures Occurs(q, b) ==> Occurs(q, a + b)
  {
    if Occurs(q, a) {
      var i :| 0 <= i <= |a| && OccursAt(q, a, i);
      assert (a + b)[i..i + |q|] == a[i..i + |q|];
      assert OccursAt(q, a + b, i);
    }
    if Occurs(q, b) {
      var i :| 0 <= i <= |b| && OccursAt(q, b, i);
      assert 0 <= i <= |b| - |q| && b[i..i + |q|] == q;
      assert (a + b)[|a| + i..|a| + i + |q|] == b[i..i + |q|];
      assert OccursAt(q, a + b, |a| + i);
    }
  }

  /** Every item of the list appears quoted in the joined listing. */
  lemma {:induction false} JoinQuotedLists(items: seq<string>, k: nat)
    requires k < |items|
    ensures Occurs(Quoted(items[k]), JoinQuoted(items))
    decreases |items|
  {
    var q := Quoted(items[0]);
    if |items| == 1 {
      assert OccursAt(q, JoinQuoted(items), 0);
    } else {
      assert JoinQuoted(items) == q + (", " + JoinQuoted(items[1..]));
      if k == 0 {
        assert (q + (", " + JoinQuoted(items[1..])))[0..|q|] == q;
        assert OccursAt(q, JoinQuoted(items), 0);
      } else {
        JoinQuotedLists(items[1..], k - 1);
        OccursAppend(Quoted(items[k]), ", ", JoinQuoted(items[1..]));
        OccursAppend(Quoted(items[k]), q, ", " + JoinQuoted(items[1..]));
      }
    }
  }

  /** Every member of the order appears quoted in the rendered set. */
  lemma SetReprLists(order: seq<string>, x: string)
    requires x in order
    ensures Occurs(Quoted(x), SetRepr(order))
  {
    var k :| 0 <= k < |order| && order[k] == x;
    JoinQuotedLists(order, k);
    OccursAppend(Quoted(x), "{", JoinQuoted(order));
    OccursAppend(Quoted(x), "{" + JoinQuoted(order), "}");
  }

  /** When the interpreter's listing of each set holds all of its members, a
      rejection's detail names every choice the user had: all allowed
      extensions, all valid model sizes, or all valid tasks. */
  lemma DetailListsEveryChoice(r: Rejection, o: SetOrders)
    requires forall e :: e in AllowedExtensions ==> e in o.extensions
    requires forall m :: m in ValidModels ==> m in o.models
    requires forall t :: t in ValidTasks ==> t in o.tasks
    ensures r.UnsupportedFileType? ==> forall e :: e in AllowedExtensions ==> Occurs(Quoted(e), Detail(r, o))
    ensures r.InvalidModelSize? ==> forall m :: m in ValidModels ==> Occurs(Quoted(m), Detail(r, o))
    ensures r.InvalidTask? ==> forall t :: t in ValidTasks ==> Occurs(Quoted(t), Detail(r, o))
  {
    match r
    case UnsupportedFileType(ext) =>
      forall e | e in AllowedExtensions
        ensures Occurs(Quoted(e), Detail(r, o))
      {
        SetReprLists(o.extensions, e);
        OccursAppend(Quoted(e), UnsupportedPrefix + ext + ". Allowed: ", SetRepr(o.extensions));
      }
    case InvalidModelSize =>
      forall m | m in ValidModels
        ensures Occurs(Quoted(m), Detail(r, o))
      {
        SetReprLists(o.models, m);
        OccursAppend(Quoted(m), "Invalid model size. Choose from: ", SetRepr(o.models));
      }
    case InvalidTask =>
      forall t | t in ValidTasks
        ensures Occurs(Quoted(t), Detail(r, o))
      {
        SetReprLists(o.tasks, t);
        OccursAppend(Quoted(t), "Invalid task. Choose from: ", SetRepr(o.tasks));
      }
  }

  /** An unsupported type is reported as "Unsupported file type: " followed by
      the lower-cased extension that was extracted. */
  lemma UnsupportedDetailNamesExtension(filename: string, modelSize: string, task: string, f: Flavor, o: SetOrders)
    requires Extension(filename, f) !in AllowedExtensions
    ensures var v := Validate(filename, modelSize, task, f, o);
            v.Rejected? && v.detail[..|UnsupportedPrefix| + |Extension(filename, f)|] == UnsupportedPrefix + Extension(filename, f)
  {
  }

  /** The three reasons are reported with three different details. */
  lemma DetailsAreDistinct(r1: Rejection, r2: Rejection, o: SetOrders)
    requires r1 != r2
    ensures Detail(r1, o) != Detail(r2, o)
  {
    var d1, d2 := Detail(r1, o), Detail(r2, o);
    DetailSignature(r1, o);
    DetailSignature(r2, o);
    if r1.UnsupportedFileType? && r2.UnsupportedFileType? {
      UnsupportedDetailInjective(r1.ext, r2.ext, o);
    }
  }

  /** Different extensions are echoed in different details. */
  lemma UnsupportedDetailInjective(e1: string, e2: string, o: SetOrders)
    ensures Detail(UnsupportedFileType(e1), o) == Detail(UnsupportedFileType(e2), o) ==> e1 == e2
  {
    var d1, d2 := Detail(UnsupportedFileType(e1), o), Detail(UnsupportedFileType(e2), o);
    var tail := ". Allowed: " + SetRepr(o.extensions);
    assert d1 == UnsupportedPrefix + e1 + tail;
    assert d2 == UnsupportedPrefix + e2 + tail;
    if d1 == d2 {
      // both end in the same listing, so the two extensions have one length
      assert |e1| == |e2|;
      assert e1 == d1[|UnsupportedPrefix|..|UnsupportedPrefix| + |e1|];
      assert e2 == d2[|UnsupportedPrefix|..|UnsupportedPrefix| + |e2|];
    }
  }

  const UnsupportedPrefix := "Unsupported file type: "

  /** The first and the ninth character of a detail, which tell the three
      kinds of rejection apart. */
  function Signature(d: string): (char, char) {
    if |d| > 8 then (d[0], d[8]) else (' ', ' ')
  }

  lemma DetailSignature(r: Rejection, o: SetOrders)
    ensures Signature(Detail(r, o)) == match r
      case UnsupportedFileType(_) => ('U', 't')
      case InvalidModelSize => ('I', 'm')
      case InvalidTask => ('I', 't')
  {
    var d := Detail(r, o);
    match r
    case UnsupportedFileType(e) =>
      assert d == UnsupportedPrefix + (e + ". Allowed: " + SetRepr(o.extensions));
    case InvalidModelSize =>
      var prefix := "Invalid model size. Choose from: ";
      assert d == prefix + SetRepr(o.models);
      assert d[0] == prefix[0] && d[8] == prefix[8];
    case InvalidTask =>
      var prefix := "Invalid task. Choose from: ";
      assert d == prefix + SetRepr(o.tasks);
      assert d[0] == prefix[0] && d[8] == prefix[8];
  }

  // ---------------------------------------------------------------------------
  // Examples
  // ---------------------------------------------------------------------------

  /** Upper-case names pass. */
  lemma UpperCaseWavExample(p: string)
    requires p == "A.WAV"
    ensures Extension(p, Posix) == ".wav"
  {
    assert p[0] == 'A' && p[1] == '.' && p[2] == 'W' && p[3] == 'A' && p[4] == 'V';
    ExtAt(p, Posix, 0, 1);
    var l := Lower(p[1..]);
    assert l[0] == '.' && l[1] == 'w' && l[2] == 'a' && l[3] == 'v';
  }

  /** With `ntpath` a name under a directory keeps only its own extension,
      lower-cased. */
  lemma OggExample(p: string)
    requires p == "rec\\x.OGG"
    ensures Extension(p, Windows) == ".ogg"
  {
    assert p[3] == '\\' && p[4] == 'x' && p[5] == '.' && p[6] == 'O' && p[7] == 'G' && p[8] == 'G';
    ExtAt(p, Windows, 4, 5);
    var l := Lower(p[5..]);
    assert l[0] == '.' && l[1] == 'o' && l[2] == 'g' && l[3] == 'g';
  }

  /** A bare dot-file has no extension, so it is rejected whatever the other
      parameters are. */
  lemma DotFileExample(p: string, modelSize: string, task: string, o: SetOrders)
    requires p == ".wav"
    ensures Extension(p, Posix) == ""
    ensures Validate(p, modelSize, task, Posix, o) == Rejected(UnsupportedFileType(""), Detail(UnsupportedFileType(""), o))
  {
    assert p[0] == '.' && p[1] == 'w' && p[2] == 'a' && p[3] == 'v';
    RFindAt(p, '.', 0);
    RFindAt(p, '/', -1);
    assert "" !in AllowedExtensions;
  }

  /** With `ntpath` a directory whose name looks like an extension gives none. */
  lemma DirectoryExample(p: string)
    requires p == "song.wav\\take"
    ensures Extension(p, Windows) == ""
  {
    assert p[4] == '.' && p[8] == '\\';
    assert forall j :: 4 < j < |p| ==> p[j] != '.';
    assert forall j :: 8 < j < |p| ==> p[j] != '\\' && p[j] != '/';
    RFindAt(p, '.', 4);
    RFindAt(p, '\\', 8);
  }

  /** A valid request in upper case passes. */
  lemma AcceptExample(p: string, o: SetOrders)
    requires p == "A.WAV"
    ensures Validate(p, "small", "transcribe", Posix, o) == Ok
  {
    UpperCaseWavExample(p);
  }

  /** When every input is bad the extension is what is reported. */
  lemma AllBadExample(p: string, o: SetOrders)
    requires p == "rec\\x.OGG"
    ensures Validate(p, "huge", "dance", Windows, o).reason == UnsupportedFileType(".ogg")
  {
    OggExample(p);
    assert ".ogg" !in AllowedExtensions;
  }

  /** With a good extension the model size is checked before the task. */
  lemma BadModelAndTaskExample(p: string, o: SetOrders)
    requires p == "x.mp3"
    ensures Validate(p, "huge", "dance", Posix, o).reason == InvalidModelSize
  {
    assert p[0] == 'x' && p[1] == '.' && p[2] == 'm' && p[3] == 'p' && p[4] == '3';
    ExtAt(p, Posix, 0, 1);
    var l := Lower(p[1..]);
    assert l[0] == '.' && l[1] == 'm' && l[2] == 'p' && l[3] == '3';
    assert l == ".mp3";
  }
}
