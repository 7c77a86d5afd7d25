/** Speech-to-text (`generateAudioTransciptions`): the list of form-data
    entries the multipart body is built from, and the checks on the
    response's status and body. */
module Transcription {
  import opened Common
  import Utf8

  const TranscriptionModel: string := "gpt-4o-transcribe"
  const AudioContentType: string := "audio/mpeg"

  /** One part of a multipart/form-data body. */
  datatype MultipartFormDataEntry =
    | File(paramName: string, fileName: string, fileData: seq<byte>, contentType: string)
    | Str(paramName: string, value: string)

  /** A language code is sent only when one is given and it is not empty. */
  predicate HasLanguage(languageCode: Option<string>) {
    languageCode.Some? && languageCode.value != []
  }

  /** The first entry of `entries` named `name`: what a server reading the
      form by parameter name sees. */
  function EntryNamed(entries: seq<MultipartFormDataEntry>, name: string): Option<MultipartFormDataEntry> {
    if entries == [] then None
    else if entries[0].paramName == name then Some(entries[0])
    else EntryNamed(entries[1..], name)
  }

  /** The entries of the transcription form: the audio file, the fixed model,
      the fixed response format "text" and the prompt, then the language
      appended when it is present and not empty. */
  method TranscriptionEntries(audioData: seq<byte>, fileName: string, prompt: string, languageCode: Option<string>)
    returns (entries: seq<MultipartFormDataEntry>)
    ensures |entries| == if HasLanguage(languageCode) then 5 else 4
    ensures entries[..4] == [
      File("file", fileName, audioData, AudioContentType),
      Str("model", TranscriptionModel),
      Str("response_format", "text"),
      Str("prompt", prompt)]
    ensures HasLanguage(languageCode) ==> entries[4] == Str("language", languageCode.value)
    ensures forall i, j :: 0 <= i < j < |entries| ==> entries[i].paramName != entries[j].paramName
    ensures EntryNamed(entries, "file") == Some(File("file", fileName, audioData, AudioContentType))
    ensures EntryNamed(entries, "prompt") == Some(Str("prompt", prompt))
    ensures EntryNamed(entries, "language") ==
      if HasLanguage(languageCode) then Some(Str("language", languageCode.value)) else None
  {
    entries := [
      File("file", fileName, audioData, AudioContentType),
      Str("model", TranscriptionModel),
      Str("response_format", "text"),
      Str("prompt", prompt)
    ];
    if HasLanguage(languageCode) {
      entries := entries + [Str("language", languageCode.value)];
    }
    EntryNamedFinds(entries, 0);
    EntryNamedFinds(entries, 3);
    if HasLanguage(languageCode) {
      EntryNamedFinds(entries, 4);
    } else {
      EntryNamedAbsent(entries, "language");
    }
  }

  /** Looking up an entry's own name finds that entry when no earlier entry
      has the same name. */
  lemma {:induction false} EntryNamedFinds(entries: seq<MultipartFormDataEntry>, i: nat)
    requires i < |entries|
    requires forall j :: 0 <= j < i ==> entries[j].paramName != entries[i].paramName
    ensures EntryNamed(entries, entries[i].paramName) == Some(entries[i])
    decreases i
  {
    if i > 0 {
      assert entries[0].paramName != entries[i].paramName;
      assert entries[1..][i - 1] == entries[i];
      EntryNamedFinds(entries[1..], i - 1);
    }
  }

  /** Looking up a name no entry has finds nothing. */
  lemma {:induction false} EntryNamedAbsent(entries: seq<MultipartFormDataEntry>, name: string)
    requires forall j :: 0 <= j < |entries| ==> entries[j].paramName != name
    ensures EntryNamed(entries, name) == None
    decreases |entries|
  {
    if entries != [] {
      assert entries[0].paramName != name;
      EntryNamedAbsent(entries[1..], name);
    }
  }

  /** The response handling: the status must be exactly 200 (a missing HTTP
      response is reported as status -1), and the body must be UTF-8, whose
      text is returned. */
  function ResolveTranscription(status: Option<int>, body: seq<byte>): (r: Result<string, ClientError>)
    ensures r.Success? <==> status == Some(200) && Utf8.IsValid(body)
    ensures r.Success? ==> Utf8.Encode(r.value) == body
    ensures status != Some(200) ==>
      r == Failure(InvalidStatusCode(if status.Some? then status.value else -1))
    ensures status == Some(200) && !Utf8.IsValid(body) ==> r == Failure(InvalidFormat)
  {
    if status != Some(200) then
      Failure(InvalidStatusCode(if status.Some? then status.value else -1))
    else
      match Utf8.Decode(body)
      case None => Failure(InvalidFormat)
      case Some(text) =>
        Utf8.EncodeDecode(body);
        Success(text)
  }

  /** Every text comes back from a 200 response that carries its UTF-8 form. */
  lemma TranscriptionRoundTrip(text: string)
    ensures ResolveTranscription(Some(200), Utf8.Encode(text)) == Success(text)
  {
    Utf8.DecodeEncode(text);
  }
}
