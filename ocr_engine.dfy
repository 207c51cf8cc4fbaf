/**
 * The OCR engine factory and the text assembly of the two OCR backends.
 * The OCR libraries, the model download and the OpenAI-style API call are
 * outside the model: what they return is passed in.
 */
module OcrEngine {
  import opened Wrappers
  import opened PyStr

  /**
   * The two backends. Each constructor catches its own failures, so a backend
   * always exists once constructed; `ocrReady` / `clientReady` say whether
   * its library handle was set up (`self.ocr` / `self.client` is not None).
   */
  datatype Backend = Paddle(ocrReady: bool) | Nanonets(clientReady: bool)

  /** How each backend's constructor would come out in this process. */
  datatype Environment = Environment(paddleReady: bool, nanonetsReady: bool)

  /** The backend a lower-cased backend name selects, if any. */
  function BackendFor(key: string, env: Environment): (b: Option<Backend>)
    ensures b.Some? <==> key == "paddle" || key == "nanonets"
    ensures key == "paddle" ==> b == Some(Paddle(env.paddleReady))
    ensures key == "nanonets" ==> b == Some(Nanonets(env.nanonetsReady))
  {
    if key == "paddle" then Some(Paddle(env.paddleReady))
    else if key == "nanonets" then Some(Nanonets(env.nanonetsReady))
    else None
  }

  /** `OCREngine`, whose class-level `_instance` caches the first backend built. */
  class Factory {
    var instance: Option<Backend>

    constructor ()
      ensures instance == None
    {
      instance := None;
    }

    /**
     * `OCREngine.get_instance`. A cached instance is returned whatever name is
     * passed. Otherwise the name is lower-cased (a missing name makes
     * `.lower()` raise) and an unknown name returns None without caching.
     */
    method GetInstance(backendType: Option<string>, env: Environment) returns (r: Result<Option<Backend>>)
      modifies this
      ensures old(instance).Some? ==> r == Ok(old(instance)) && instance == old(instance)
      ensures old(instance).None? && backendType.None? ==> r.Err? && instance == None
      ensures old(instance).None? && backendType.Some? ==>
        instance == BackendFor(Lower(backendType.value), env) && r == Ok(instance)
    {
      if instance.None? {
        if backendType.None? {
          return Err("AttributeError: 'NoneType' object has no attribute 'lower'");
        }
        var key := Lower(backendType.value);
        if key == "paddle" {
          instance := Some(Paddle(env.paddleReady));
        } else if key == "nanonets" {
          instance := Some(Nanonets(env.nanonetsReady));
        } else {
          return Ok(None);
        }
      }
      return Ok(instance);
    }
  }

  /** Names differing only in ASCII case select the same backend. */
  lemma BackendNameCaseInsensitive(a: string, b: string, env: Environment)
    requires Lower(a) == Lower(b)
    ensures BackendFor(Lower(a), env) == BackendFor(Lower(b), env)
  {
  }

  /**
   * One line of a PaddleOCR page result: `arity` is `len(line)` (0 for a
   * falsy line) and `recognition` is `line[1]`, the recognised text first.
   */
  datatype OcrLine = OcrLine(arity: nat, recognition: seq<string>)

  /** The text a line contributes: `line[1][0]` of a line with at least two parts. */
  function LineText(line: OcrLine): string {
    if line.arity >= 2 && line.recognition != [] then line.recognition[0] else ""
  }

  /** The non-empty texts of the lines, in order. */
  function Recognised(lines: seq<OcrLine>): (r: seq<string>)
    ensures forall k :: 0 <= k < |r| ==> r[k] != []
    ensures |r| <= |lines|
  {
    if lines == [] then []
    else if LineText(lines[0]) != [] then [LineText(lines[0])] + Recognised(lines[1..])
    else Recognised(lines[1..])
  }

  /** Each text followed by one space, all concatenated. */
  function Spaced(texts: seq<string>): string {
    if texts == [] then [] else texts[0] + " " + Spaced(texts[1..])
  }

  lemma {:induction false} SpacedAppend(texts: seq<string>, t: string)
    ensures Spaced(texts + [t]) == Spaced(texts) + t + " "
  {
    if texts == [] {
      assert [] + [t] == [t];
    } else {
      assert (texts + [t])[1..] == texts[1..] + [t];
      SpacedAppend(texts[1..], t);
    }
  }

  lemma {:induction false} RecognisedAppend(lines: seq<OcrLine>, line: OcrLine)
    ensures Recognised(lines + [line]) ==
      Recognised(lines) + (if LineText(line) != [] then [LineText(line)] else [])
  {
    if lines == [] {
      assert [] + [line] == [line];
      assert Recognised([line][1..]) == [];
    } else {
      assert (lines + [line])[1..] == lines[1..] + [line];
      RecognisedAppend(lines[1..], line);
    }
  }

  /**
   * `PaddleOCRBackend.predict`. `call` is what `self.ocr.ocr(...)` returned
   * (None when it raised); an unset OCR handle raises as well. Either error
   * gives "". Only the first page of the result is read.
   */
  method PaddlePredict(ocrReady: bool, call: Option<seq<seq<OcrLine>>>) returns (text: string)
    ensures !ocrReady || call.None? ==> text == ""
    ensures ocrReady && call.Some? ==>
      text == Strip(Spaced(Recognised(if call.value == [] then [] else call.value[0])))
  {
    if !ocrReady || call.None? {
      return "";
    }
    var lines: seq<OcrLine> := if call.value == [] then [] else call.value[0];
    var ocrText := "";
    var i := 0;
    while i < |lines|
      invariant 0 <= i <= |lines|
      invariant ocrText == Spaced(Recognised(lines[..i]))
    {
      var line := lines[i];
      RecognisedAppend(lines[..i], line);
      assert lines[..i + 1] == lines[..i] + [line];
      if line.arity >= 2 {
        var t := if line.recognition != [] then line.recognition[0] else "";
        assert t == LineText(line);
        if t != "" {
          SpacedAppend(Recognised(lines[..i]), t);
          assert Recognised(lines[..i + 1]) == Recognised(lines[..i]) + [t];
          ocrText := ocrText + t + " ";
          assert ocrText == Spaced(Recognised(lines[..i + 1]));
        } else {
          assert Recognised(lines[..i + 1]) == Recognised(lines[..i]);
        }
      } else {
        assert LineText(line) == "";
        assert Recognised(lines[..i + 1]) == Recognised(lines[..i]);
      }
      i := i + 1;
    }
    assert lines[..i] == lines;
    StripNonEmptyIff(ocrText);
    if |Strip(ocrText)| > 0 {
      text := Strip(ocrText);
    } else {
      text := "";
    }
  }

  lemma HasNonSpaceConcat(a: string, b: string)
    ensures HasNonSpace(a + b) <==> HasNonSpace(a) || HasNonSpace(b)
  {
    if HasNonSpace(a + b) {
      var i :| 0 <= i < |a + b| && !IsSpace((a + b)[i]);
      if i < |a| { assert a[i] == (a + b)[i]; } else { assert b[i - |a|] == (a + b)[i]; }
    }
    if HasNonSpace(a) {
      var i :| 0 <= i < |a| && !IsSpace(a[i]);
      assert (a + b)[i] == a[i];
    }
    if HasNonSpace(b) {
      var i :| 0 <= i < |b| && !IsSpace(b[i]);
      assert (a + b)[|a| + i] == b[i];
    }
  }

  /** Some recognised text has a character other than whitespace. */
  predicate AnyVisible(texts: seq<string>) {
    exists k :: 0 <= k < |texts| && HasNonSpace(texts[k])
  }

  lemma {:induction false} SpacedVisible(texts: seq<string>)
    ensures HasNonSpace(Spaced(texts)) <==> AnyVisible(texts)
  {
    if texts != [] {
      SpacedVisible(texts[1..]);
      HasNonSpaceConcat(texts[0] + " ", Spaced(texts[1..]));
      HasNonSpaceConcat(texts[0], " ");
      assert !HasNonSpace(" ");
      if AnyVisible(texts[1..]) {
        var k :| 0 <= k < |texts[1..]| && HasNonSpace(texts[1..][k]);
        assert texts[k + 1] == texts[1..][k];
      }
      if AnyVisible(texts) && !HasNonSpace(texts[0]) {
        var k :| 0 <= k < |texts| && HasNonSpace(texts[k]);
        assert texts[1..][k - 1] == texts[k];
      }
    }
  }

  /**
   * The Paddle text is empty exactly when no line recognised anything but
   * whitespace; otherwise it neither starts nor ends with whitespace.
   */
  lemma PaddleTextShape(lines: seq<OcrLine>, t: string)
    requires t == Strip(Spaced(Recognised(lines)))
    ensures t == [] <==> !AnyVisible(Recognised(lines))
    ensures t == [] || (!IsSpace(t[0]) && !IsSpace(t[|t| - 1]))
  {
    SpacedVisible(Recognised(lines));
    StrippedText(Spaced(Recognised(lines)), t);
  }

  /** What the OpenAI-style chat completion call came back with. */
  datatype ApiReply = Replied(content: Option<string>) | Raised

  /**
   * `NanonetsOCRBackend.predict`: "" without a client, for an empty base64
   * encoding or when the call raises; otherwise the first choice's content,
   * which may itself be None.
   */
  function NanonetsPredict(clientReady: bool, encoded: string, reply: ApiReply): (r: Option<string>)
    ensures !clientReady || encoded == [] || reply.Raised? ==> r == Some("")
    ensures clientReady && encoded != [] && reply.Replied? ==> r == reply.content
  {
    if !clientReady then Some("")
    else if encoded == [] then Some("")
    else match reply
      case Raised => Some("")
      case Replied(content) => content
  }
}
