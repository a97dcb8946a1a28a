/**
  The `/upload` route of app.py and the outcome mapping of its speech
  recogniser. The multipart form is given as a map from field name to the
  filename of the file sent under it; what the recogniser makes of the audio
  at a path is a parameter.
 */
module Upload {
  import opened PyText

  /** A plain-text Flask response: the body and the HTTP status. */
  datatype Response = Response(body: string, status: nat)

  /** How `recognize_google` ends: with text, `UnknownValueError`, or `RequestError`. */
  datatype SpeechOutcome = Recognised(text: string) | UnknownValue | RequestFailed

  const SpeechNotRecognised := "Speech not recognized"
  const ServiceUnavailable := "Error: Could not request results from the speech recognition service"
  const NoAudioField := "No audio file provided"
  const NoFilename := "No selected file"
  const Webm := ".webm"
  const Wav := ".wav"

  // ---------------------------------------------------------------------------
  // speech_to_text

  /** The body `speech_to_text` returns for each way recognition can end. */
  function SpeechText(outcome: SpeechOutcome): (body: string)
    ensures outcome.Recognised? ==> body == outcome.text
    ensures outcome.UnknownValue? ==> body == SpeechNotRecognised
    ensures outcome.RequestFailed? ==> body == ServiceUnavailable
  {
    match outcome
    case Recognised(text) => text
    case UnknownValue => SpeechNotRecognised
    case RequestFailed => ServiceUnavailable
  }

  predicate IsSentinel(body: string) {
    body == SpeechNotRecognised || body == ServiceUnavailable
  }

  /**
    A hypothetical reader that tells the outcomes apart from the body alone.
    The page's own script has no such logic: it shows whatever body comes
    back; this reader only makes precise what the body loses.
   */
  function ClassifyBody(body: string): SpeechOutcome {
    if body == SpeechNotRecognised then UnknownValue
    else if body == ServiceUnavailable then RequestFailed
    else Recognised(body)
  }

  /**
    The body determines the outcome exactly when the outcome is not a
    recognised text that happens to spell one of the two failure strings.
   */
  lemma SpeechBodyRoundTrip(outcome: SpeechOutcome)
    ensures ClassifyBody(SpeechText(outcome)) == outcome
        <==> !(outcome.Recognised? && IsSentinel(outcome.text))
  {
  }

  // ---------------------------------------------------------------------------
  // upload_file

  /** `file_path.replace('.webm', '.wav')`: every occurrence, not just the extension. */
  function WavPath(path: string): (w: string)
    ensures |w| <= |path|
  {
    ReplaceAll(path, Webm, Wav)
  }

  /** What `upload_file` does with the form: reject it, or save and transcribe. */
  datatype Step = Reject(response: Response) | Transcribe(savedPath: string, audioPath: string)

  /**
    The validation order of `upload_file` (a missing `audio` field is
    reported before an empty filename), then the path the file is saved to
    and the path the recogniser reads.
   */
  function Decide(files: map<string, string>, uploadFolder: string): (step: Step)
    ensures step.Reject? <==> "audio" !in files || files["audio"] == ""
    ensures step.Reject? ==> step.response.status == 400
    ensures step.Transcribe? ==> EndsWith(step.savedPath, files["audio"])
  {
    if "audio" !in files then Reject(Response(NoAudioField, 400))
    else
      var filename := files["audio"];
      if filename == "" then Reject(Response(NoFilename, 400))
      else
        var filePath := PathJoin(uploadFolder, filename);
        if EndsWith(filename, Webm) then Transcribe(filePath, WavPath(filePath))
        else Transcribe(filePath, filePath)
  }

  /** The response of `/upload`, given what the recogniser makes of the audio at each path. */
  function UploadFile(files: map<string, string>, uploadFolder: string, recognise: string -> SpeechOutcome): (r: Response)
    ensures "audio" !in files ==> r == Response(NoAudioField, 400)
    ensures "audio" in files && files["audio"] == "" ==> r == Response(NoFilename, 400)
    ensures "audio" in files && files["audio"] != "" ==>
      r.status == 200 && r.body == SpeechText(recognise(Decide(files, uploadFolder).audioPath))
  {
    match Decide(files, uploadFolder)
    case Reject(response) => response
    case Transcribe(_, audioPath) => Response(SpeechText(recognise(audioPath)), 200)
  }

  // ---------------------------------------------------------------------------
  // The .webm rewrite

  lemma WebmOverlapFree()
    ensures OverlapFree(Webm)
  {
    forall k | 0 < k < |Webm| ensures Webm[k..] != Webm[..|Webm| - k] {
      assert Webm[k..][0] != Webm[..|Webm| - k][0];
    }
  }

  /** One step of the left-to-right scan that `WavPath` performs. */
  lemma WavPathUnfold(path: string)
    ensures |Webm| == 5 && |Wav| == 4 && Webm[0] == '.'
    ensures path == [] ==> WavPath(path) == []
    ensures path != [] && Webm <= path ==> WavPath(path) == Wav + WavPath(path[5..])
    ensures path != [] && !(Webm <= path) ==> WavPath(path) == [path[0]] + WavPath(path[1..])
  {
    ReplaceAllUnfold(path, Webm, Wav);
  }

  /** The rewrite never makes a path start with a dot-free `q` that it did not start with. */
  lemma {:induction false} DotFreePrefixKept(path: string, q: string)
    requires |q| > 0 && forall k :: 0 <= k < |q| ==> q[k] != '.'
    requires !(q <= path)
    ensures !(q <= WavPath(path))
    decreases |path|
  {
    WavPathUnfold(path);
    if path != [] {
      var w := WavPath(path);
      if Webm <= path {
        assert w[0] == '.';
      } else if path[0] != q[0] {
        assert w[0] == path[0];
      } else if |q| > 1 {
        PrefixTail(q, path);
        DotFreePrefixKept(path[1..], q[1..]);
        assert w[1..] == WavPath(path[1..]);
      }
    }
  }

  /** After the rewrite no `.webm` is left anywhere in the path. */
  lemma {:induction false} WavPathHasNoWebm(path: string)
    ensures !Contains(WavPath(path), Webm)
    decreases |path|
  {
    var w := WavPath(path);
    WavPathUnfold(path);
    if path != [] {
      if Webm <= path {
        var r := WavPath(path[5..]);
        WavPathHasNoWebm(path[5..]);
        forall i: nat | i <= |w| ensures !OccursAt(w, Webm, i) {
          if i >= 4 {
            assert !OccursAt(r, Webm, i - 4);
            assert w[i..] == r[i - 4..];
          } else if i == 0 {
            if |w| >= 5 {
              assert w[2] == 'a';
            }
          } else {
            assert w[i..][0] != '.';
          }
        }
      } else {
        var r := WavPath(path[1..]);
        WavPathHasNoWebm(path[1..]);
        forall i: nat | i <= |w| ensures !OccursAt(w, Webm, i) {
          if i >= 1 {
            assert !OccursAt(r, Webm, i - 1);
            assert w[i..] == r[i - 1..];
          } else if path[0] == '.' {
            assert w[0..] == w;
            PrefixTail(Webm, path);
            assert Webm[1..] == "webm";
            DotFreePrefixKept(path[1..], "webm");
            assert w == ['.'] + r;
            if |r| >= 4 {
              assert r[..4] != "webm";
              var k :| 0 <= k < 4 && r[..4][k] != "webm"[k];
              assert w[k + 1] == r[k] && Webm[k + 1] == "webm"[k];
            }
          } else {
            assert w[0..] == w;
            assert w[0] != '.';
          }
        }
      }
    }
  }

  /** A path without `.webm` is left as it is. */
  lemma WavPathWithoutWebm(path: string)
    requires !Contains(path, Webm)
    ensures WavPath(path) == path
  {
    ReplaceAllAbsent(path, Webm, Wav);
  }

  /** A path ending in `.webm` is rewritten to one ending in `.wav`. */
  lemma TrailingWebmBecomesWav(path: string)
    requires EndsWith(path, Webm)
    ensures EndsWith(WavPath(path), Wav)
  {
    var stem := path[..|path| - |Webm|];
    assert path == stem + Webm;
    WebmOverlapFree();
    ReplaceAllTrailing(stem, Webm, Wav);
  }

  /** A suffix of a suffix is a suffix. */
  lemma EndsWithTransitive(s: string, t: string, u: string)
    requires EndsWith(s, t) && EndsWith(t, u)
    ensures EndsWith(s, u)
  {
    assert s[|s| - |u|..] == s[|s| - |t|..][|t| - |u|..];
  }

  /**
    A `.webm` upload is saved under the upload folder and the recogniser
    reads the saved path with every `.webm` rewritten, which ends in `.wav`
    and holds no `.webm`.
   */
  lemma WebmUploadIsConverted(files: map<string, string>, uploadFolder: string)
    requires "audio" in files && files["audio"] != "" && EndsWith(files["audio"], Webm)
    ensures var saved := PathJoin(uploadFolder, files["audio"]);
      && Decide(files, uploadFolder) == Transcribe(saved, WavPath(saved))
      && EndsWith(WavPath(saved), Wav)
      && !Contains(WavPath(saved), Webm)
  {
    var saved := PathJoin(uploadFolder, files["audio"]);
    EndsWithTransitive(saved, files["audio"], Webm);
    TrailingWebmBecomesWav(saved);
    WavPathHasNoWebm(saved);
  }

  /** Any other upload is recognised from the path it was saved to, unchanged. */
  lemma OtherUploadIsUnchanged(files: map<string, string>, uploadFolder: string)
    requires "audio" in files && files["audio"] != "" && !EndsWith(files["audio"], Webm)
    ensures var saved := PathJoin(uploadFolder, files["audio"]);
      Decide(files, uploadFolder) == Transcribe(saved, saved)
  {
  }
}
