/**
 * static/js/create_game.js: how the "create a game" page normalises the word,
 * decides what to show for the server's reply, checks the returned game id and
 * fills the top-words table. The DOM, the clipboard and the request itself are
 * not modelled; the reply is a parameter.
 */
module CreateGame {
  import opened Wrappers
  import opened Text

  /** `(value || "").trim().toLowerCase()`; `None` stands for null and undefined. */
  function NormalizeWord(value: Option<string>): (w: string)
    ensures |w| <= |value.GetOr("")|
  {
    LowerStr(JsTrim(value.GetOr("")))
  }

  lemma NormalizeMissing()
    ensures NormalizeWord(None) == ""
    ensures NormalizeWord(Some("")) == ""
  {
  }

  /** The normalised word neither starts nor ends with whitespace, and holds no
      upper-case letter of the mapped alphabets. */
  lemma NormalizeTrimmed(value: Option<string>)
    ensures var w := NormalizeWord(value);
            (w == [] || (!IsJsSpace(w[0]) && !IsJsSpace(w[|w| - 1])))
            && forall i :: 0 <= i < |w| ==> Lower(w[i]) == w[i]
  {
    var t := JsTrim(value.GetOr(""));
    if t != [] {
      LowerKeepsSpace(t[0]);
      LowerKeepsSpace(t[|t| - 1]);
    }
    forall i | 0 <= i < |t| ensures Lower(Lower(t[i])) == Lower(t[i]) {
      LowerIdempotent(t[i]);
    }
  }

  /** Normalising twice is normalising once. */
  lemma NormalizeIdempotent(value: Option<string>)
    ensures NormalizeWord(Some(NormalizeWord(value))) == NormalizeWord(value)
  {
    var w := NormalizeWord(value);
    assert JsTrim(w) == w by {
      NormalizeTrimmed(value);
      TrimOfTrimmed(w, IsJsSpace);
    }
    assert LowerStr(w) == w by {
      NormalizeTrimmed(value);
      LowerStrOfLower(w);
    }
    assert Some(w).GetOr("") == w;
  }

  // ---------------------------------------------------------------------------
  // The game id

  const GameIdLength: nat := 64

  predicate IsLowerHexDigit(c: char) {
    ('0' <= c <= '9') || ('a' <= c <= 'f')
  }

  /** `/^[0-9a-f]{64}$/.test(id)` */
  predicate IsGameIdText(id: string) {
    |id| == GameIdLength && forall i :: 0 <= i < |id| ==> IsLowerHexDigit(id[i])
  }

  /** `String(payload.game_id || "").trim().toLowerCase()`, accepted only when it
      is 64 lower-case hex digits; `gameId` is the string form of the field,
      `None` when it is absent or falsy. */
  function AcceptedGameId(gameId: Option<string>): (id: Option<string>)
    ensures id.Some? <==> IsGameIdText(NormalizeWord(gameId))
    ensures id.Some? ==> id.value == NormalizeWord(gameId) && |id.value| == GameIdLength
  {
    var t := NormalizeWord(gameId);
    if IsGameIdText(t) then Some(t) else None
  }

  /** Surrounding whitespace and upper-case hex digits do not make an id invalid. */
  lemma GameIdIgnoresCaseAndSpace(raw: string)
    requires |raw| == GameIdLength
    requires forall i :: 0 <= i < |raw| ==> ('0' <= raw[i] <= '9') || ('a' <= raw[i] <= 'f') || ('A' <= raw[i] <= 'F')
    ensures AcceptedGameId(Some(" " + raw + "\n")) == Some(LowerStr(raw))
  {
    var s := " " + raw + "\n";
    assert s == [' '] + raw + ['\n'];
    TrimOfPadded(' ', raw, '\n', IsJsSpace);
    assert Some(s).GetOr("") == s;
    var w := LowerStr(raw);
    assert NormalizeWord(Some(s)) == w;
    assert IsGameIdText(w);
  }

  // ---------------------------------------------------------------------------
  // The top-words table

  /** One element of `payload.ranking`. */
  datatype TopItem = TopItem(rank: Option<int>, word: Option<string>, similarity: Option<real>)

  const TopWordsLimit: nat := 500

  /** `renderTopWords`: the rows it appends, in order; `ranking` is `None` when it is not an array. */
  method RenderTopWords(ranking: Option<seq<TopItem>>) returns (rows: seq<TopItem>)
    ensures ranking.None? ==> rows == []
    ensures ranking.Some? ==>
              |rows| == (if |ranking.value| < TopWordsLimit then |ranking.value| else TopWordsLimit)
              && forall i :: 0 <= i < |rows| ==> rows[i] == ranking.value[i]
  {
    var items := if ranking.Some? then ranking.value else [];
    var top := if |items| < TopWordsLimit then items else items[..TopWordsLimit];
    rows := [];
    for k := 0 to |top|
      invariant rows == top[..k]
    {
      rows := rows + [top[k]];
    }
  }

  // ---------------------------------------------------------------------------
  // The form's submit handler

  /** The parsed JSON of the reply: `error` (when a non-empty string),
      `ranking` (when an array), `game_id` (its string form, when truthy). */
  datatype Payload = Payload(error: Option<string>, ranking: Option<seq<TopItem>>, gameId: Option<string>)

  /** `response.ok` and the parsed body (`None` for a `null` body). */
  datatype Response = Response(ok: bool, payload: Option<Payload>)

  datatype CreateOutcome =
    | EnterWord                    // "Введіть слово.", no request is made
    | Failed(message: string)      // the server's error, or a default message
    | BadData                      // "Сервер повернув некоректні дані."
    | BadGameId                    // "Сервер повернув некоректний id гри."
    | Created(gameId: string, ranking: seq<TopItem>)

  const DefaultCreateError: string := "Не вдалося створити гру."
  const RetryCreateError: string := "Не вдалося створити гру. Спробуйте ще раз."

  /** The request the handler makes: the normalised word, or none at all. */
  function RequestedWord(input: string): (w: Option<string>)
    ensures w.None? <==> NormalizeWord(Some(input)) == ""
    ensures w.Some? ==> w.value == NormalizeWord(Some(input))
  {
    var word := NormalizeWord(Some(input));
    if word == "" then None else Some(word)
  }

  /** What the handler shows for `input` and the reply to its request
      (`None` when the request or the JSON parse threw). */
  function SubmitOutcome(input: string, reply: Option<Response>): (o: CreateOutcome)
    ensures RequestedWord(input).None? <==> o == EnterWord
    ensures RequestedWord(input).Some? && reply.None? ==> o == Failed(RetryCreateError)
    ensures o.Created? ==> IsGameIdText(o.gameId) && reply.Some? && reply.value.ok
                           && reply.value.payload.Some? && reply.value.payload.value.ranking == Some(o.ranking)
    ensures o.Failed? && o.message != RetryCreateError ==> reply.Some? && !reply.value.ok
    ensures RequestedWord(input).Some? && reply.Some? && !reply.value.ok ==>
              var p := reply.value.payload;
              o == Failed(if p.Some? && p.value.error.Some? && p.value.error.value != "" then p.value.error.value
                          else DefaultCreateError)
    ensures RequestedWord(input).Some? && reply.Some? && reply.value.ok
            && (reply.value.payload.None? || reply.value.payload.value.ranking.None?)
            ==> o == BadData
    ensures RequestedWord(input).Some? && reply.Some? && reply.value.ok
            && reply.value.payload.Some? && reply.value.payload.value.ranking.Some?
            ==> o == match AcceptedGameId(reply.value.payload.value.gameId)
                   case None => BadGameId
                   case Some(id) => Created(id, reply.value.payload.value.ranking.value)
  {
    if RequestedWord(input).None? then EnterWord
    else if reply.None? then Failed(RetryCreateError)
    else
      var resp := reply.value;
      if !resp.ok then
        Failed(if resp.payload.Some? && resp.payload.value.error.Some? && resp.payload.value.error.value != ""
               then resp.payload.value.error.value else DefaultCreateError)
      else if resp.payload.None? || resp.payload.value.ranking.None? then BadData
      else
        match AcceptedGameId(resp.payload.value.gameId)
        case None => BadGameId
        case Some(id) => Created(id, resp.payload.value.ranking.value)
  }

  /** A failed reply shows the server's own message when it gave a non-empty one. */
  lemma ServerMessageShown(input: string, message: string, ranking: Option<seq<TopItem>>, gameId: Option<string>)
    requires NormalizeWord(Some(input)) != "" && message != ""
    ensures SubmitOutcome(input, Some(Response(false, Some(Payload(Some(message), ranking, gameId)))))
            == Failed(message)
  {
  }
}
