/** First-line checks of a batch of STG rotation logs.

    Every selected file's first line must look like
    `STG...,Target Address:<addr>,<f3>,<f4>,<f5>`; fields 2 to 5 form the
    target descriptor, and every file must carry the first file's
    descriptor. Files are checked in the order selected and checking stops
    at the first offending file. */
module Header {
  import opened Series
  import opened Text

  /** What reading the first line of a file produced. */
  datatype FirstLine =
    | Line(text: string)   // the decoded line, as `readline` returned it
    | NotUtf8              // the line is not valid UTF-8
    | CannotOpen           // the file could not be opened

  /** A selected file: its name, its first line and its parsed body. */
  datatype LogFile = LogFile(name: string, first: FirstLine, body: seq<RawRow>)

  datatype ErrorKind = OpenError | EncodingError | FormatError | TargetMismatch

  /** The error shown to the user, naming the offending file by its
      position in the selection and by name. */
  datatype HeaderError = HeaderError(kind: ErrorKind, at: nat, file: string)

  /** The monitored target: the address captured from field 2 and the
      descriptor, fields 2 to 5 verbatim. */
  datatype Target = Target(address: string, descriptor: seq<string>)

  const Marker: string := "STG"
  const AddressLabel: string := "Target Address:"

  /** The text captured by `(.+)` right after the address label: everything
      up to the first line break, which `.` does not match. */
  function Capture(rest: string): (c: string)
    ensures c <= rest
    ensures '\n' !in c
    ensures |c| == |rest| || rest[|c|] == '\n'
  {
    rest[..IndexOf(rest, '\n')]
  }

  /** `re.match('Target Address:(.+)', field)`: the captured address, or
      None when the field does not start with the label followed by at
      least one character other than a line break. */
  function MatchAddress(field: string): (m: Option<string>)
    ensures m.Some? <==> AddressLabel <= field && |field| > |AddressLabel| && field[|AddressLabel|] != '\n'
    ensures m.Some? ==> |m.value| >= 1 && AddressLabel + m.value <= field && '\n' !in m.value
    ensures m.Some? ==> |AddressLabel| + |m.value| == |field| || field[|AddressLabel| + |m.value|] == '\n'
  {
    if AddressLabel <= field then
      var c := Capture(field[|AddressLabel|..]);
      if |c| == 0 then None else Some(c)
    else None
  }

  /** Checks one first line (trailing whitespace already removed by the
      caller's rstrip) and extracts the target. */
  function ParseHeader(line: string): (t: Option<Target>)
    ensures t.Some? <==>
      var cols := Split(line, ',');
      && StartsWith(line, Marker)
      && |cols| == 5
      && MatchAddress(cols[1]).Some?
    ensures t.Some? ==>
      && |t.value.descriptor| == 4
      && Join([Split(line, ',')[0]] + t.value.descriptor, ',') == line
      && AddressLabel + t.value.address <= t.value.descriptor[0]
      && ('\n' !in line ==> AddressLabel + t.value.address == t.value.descriptor[0])
  {
    var cols := Split(line, ',');
    if !StartsWith(line, Marker) || |cols| != 5 then None
    else match MatchAddress(cols[1])
      case None => None
      case Some(address) =>
        JoinSplit(line, ',');
        assert [cols[0]] + cols[1..] == cols;
        Some(Target(address, cols[1..]))
  }

  /** The first-line checks of the file at position `at`, in the source's
      order: open, decode, then format. */
  function ReadHeader(f: LogFile, at: nat): (r: Result<Target, HeaderError>)
    ensures r.Err? ==> r.error.at == at && r.error.file == f.name && r.error.kind != TargetMismatch
    ensures r.Err? ==> r.error.kind == match f.first
      case CannotOpen => OpenError
      case NotUtf8 => EncodingError
      case Line(_) => FormatError
    ensures r.Ok? <==> f.first.Line? && ParseHeader(RStrip(f.first.text)).Some?
  {
    match f.first
    case CannotOpen => Err(HeaderError(OpenError, at, f.name))
    case NotUtf8 => Err(HeaderError(EncodingError, at, f.name))
    case Line(text) =>
      match ParseHeader(RStrip(text))
      case None => Err(HeaderError(FormatError, at, f.name))
      case Some(t) => Ok(t)
  }

  /** Each file's own first-line verdict, in selection order. */
  function Heads(files: seq<LogFile>): (h: seq<Result<Target, HeaderError>>)
    ensures |h| == |files|
    ensures forall i :: 0 <= i < |files| ==> h[i] == ReadHeader(files[i], i)
  {
    seq(|files|, i requires 0 <= i < |files| => ReadHeader(files[i], i))
  }

  /** File `i` is rejected: its own first line fails, or it names another
      target than the first file (which itself passed). */
  predicate Offends(heads: seq<Result<Target, HeaderError>>, i: nat)
    requires i < |heads|
  {
    || heads[i].Err?
    || (heads[0].Ok? && heads[i].value.descriptor != heads[0].value.descriptor)
  }

  /** The loop over files `i..` once file 0 has set the baseline. */
  function CheckFrom(files: seq<LogFile>, heads: seq<Result<Target, HeaderError>>, i: nat, base: Target)
    : (r: Result<Target, HeaderError>)
    requires |heads| == |files| && 1 <= i <= |files|
    requires forall k :: 0 <= k < |heads| ==> heads[k].Err? ==> heads[k].error.at == k && heads[k].error.file == files[k].name
    requires heads[0] == Ok(base)
    ensures r.Ok? <==> forall j :: i <= j < |files| ==> !Offends(heads, j)
    ensures r.Ok? ==> r.value == base
    ensures r.Err? ==>
      && i <= r.error.at < |files|
      && r.error.file == files[r.error.at].name
      && Offends(heads, r.error.at)
      && (forall j :: i <= j < r.error.at ==> !Offends(heads, j))
      && r.error == if heads[r.error.at].Err? then heads[r.error.at].error
                    else HeaderError(TargetMismatch, r.error.at, files[r.error.at].name)
    decreases |files| - i
  {
    if i == |files| then Ok(base)
    else
      match heads[i]
      case Err(e) =>
        assert Offends(heads, i);
        Err(e)
      case Ok(t) =>
        if t.descriptor != base.descriptor then
          assert Offends(heads, i);
          Err(HeaderError(TargetMismatch, i, files[i].name))
        else
          assert !Offends(heads, i);
          CheckFrom(files, heads, i + 1, base)
  }

  /** The loop over all files, given each file's own verdict. */
  function CheckAll(files: seq<LogFile>, heads: seq<Result<Target, HeaderError>>): (r: Result<Target, HeaderError>)
    requires |heads| == |files| >= 1
    requires forall k :: 0 <= k < |heads| ==> heads[k].Err? ==> heads[k].error.at == k && heads[k].error.file == files[k].name
    ensures r.Ok? <==> forall j :: 0 <= j < |files| ==> !Offends(heads, j)
    ensures r.Ok? ==> heads[0] == Ok(r.value)
    ensures r.Err? ==>
      && r.error.at < |files|
      && r.error.file == files[r.error.at].name
      && Offends(heads, r.error.at)
      && (forall j :: 0 <= j < r.error.at ==> !Offends(heads, j))
      && r.error == if heads[r.error.at].Err? then heads[r.error.at].error
                    else HeaderError(TargetMismatch, r.error.at, files[r.error.at].name)
  {
    match heads[0]
    case Err(e) =>
      assert Offends(heads, 0);
      Err(e)
    case Ok(t) =>
      assert !Offends(heads, 0);
      CheckFrom(files, heads, 1, t)
  }

  /** Validates every first line of the selection before any body is read.
      On success the result is the first file's target; on failure the error
      names the first file that is rejected: its own open, decode or format
      error, or a target mismatch. */
  function CheckHeaders(files: seq<LogFile>): (r: Result<Target, HeaderError>)
    requires |files| >= 1
    ensures r.Ok? <==> forall j :: 0 <= j < |files| ==> !Offends(Heads(files), j)
    ensures r.Ok? ==> ReadHeader(files[0], 0) == Ok(r.value)
    ensures r.Err? ==>
      && r.error.at < |files|
      && r.error.file == files[r.error.at].name
      && Offends(Heads(files), r.error.at)
      && (forall j :: 0 <= j < r.error.at ==> !Offends(Heads(files), j))
      && r.error == if Heads(files)[r.error.at].Err? then Heads(files)[r.error.at].error
                    else HeaderError(TargetMismatch, r.error.at, files[r.error.at].name)
  {
    CheckAll(files, Heads(files))
  }

  /** Every accepted file carries the first file's descriptor, and so the
      address each one yields is the same; the source keeps the last file's
      address, which is therefore the first file's. */
  lemma AcceptedFilesAgree(files: seq<LogFile>, i: nat)
    requires |files| >= 1 && i < |files|
    requires CheckHeaders(files).Ok?
    ensures ReadHeader(files[i], i) == CheckHeaders(files)
  {
    var heads := Heads(files);
    assert !Offends(heads, i);
    var t := heads[i].value;
    var base := heads[0].value;
    var line := RStrip(files[i].first.text);
    var line0 := RStrip(files[0].first.text);
    assert t.descriptor == base.descriptor;
    assert Split(line, ',')[1..] == t.descriptor;
    assert Split(line0, ',')[1..] == base.descriptor;
    assert Split(line, ',')[1] == Split(line0, ',')[1];
  }

  /** Checking never looks at a body: two selections that differ only in
      their bodies get the same verdict. */
  lemma HeadersIgnoreBodies(files: seq<LogFile>, other: seq<LogFile>)
    requires |files| >= 1 && |files| == |other|
    requires forall i :: 0 <= i < |files| ==> files[i].name == other[i].name && files[i].first == other[i].first
    ensures CheckHeaders(files) == CheckHeaders(other)
  {
    assert Heads(files) == Heads(other);
    if Heads(files)[0].Ok? {
      CheckFromIgnoresBodies(files, other, Heads(files), 1, Heads(files)[0].value);
    }
  }

  lemma {:induction false} CheckFromIgnoresBodies(
    files: seq<LogFile>, other: seq<LogFile>, heads: seq<Result<Target, HeaderError>>, i: nat, base: Target)
    requires |files| == |other| == |heads| && 1 <= i <= |files|
    requires forall k :: 0 <= k < |files| ==> files[k].name == other[k].name
    requires forall k :: 0 <= k < |heads| ==> heads[k].Err? ==> heads[k].error.at == k && heads[k].error.file == files[k].name
    requires heads[0] == Ok(base)
    ensures CheckFrom(files, heads, i, base) == CheckFrom(other, heads, i, base)
    decreases |files| - i
  {
    if i < |files| {
      CheckFromIgnoresBodies(files, other, heads, i + 1, base);
    }
  }
}
