/** `create_transport`: which transport the settings select, with which
    parameters, and the two ways the selection fails. */
module Transport {
  import opened Common

  /** The settings fields the factory reads. The Daily credentials may be
      unset. */
  datatype Settings = Settings(
    transportType: string,
    wsHost: string,
    wsPort: int,
    dailyRoomUrl: Option<string>,
    dailyToken: Option<string>)

  /** The voice-activity analyzer both transports share. */
  datatype Vad = SileroVad

  datatype Transport =
    | WebsocketServer(host: string, port: int, audioIn: bool, audioOut: bool,
                      addWavHeader: bool, vad: Vad)
    | Daily(roomUrl: string, token: string, botName: string, audioIn: bool,
            audioOut: bool, vad: Vad, transcriptionEnabled: bool)

  const DAILY_BOT_NAME: string := "Voice Agent"
  const DAILY_CREDENTIALS_MISSING: string :=
    "Daily transport requires DAILY_ROOM_URL and DAILY_TOKEN to be set"

  /** The `ValueError` message for a transport type that is neither. */
  function InvalidTypeMessage(t: string): (m: string)
    ensures "Invalid transport type: " + t <= m
  {
    "Invalid transport type: " + t + ". Must be 'websocket' or 'daily'."
  }

  /** Python truthiness of an optional string: set and not empty. */
  predicate Truthy(s: Option<string>)
  {
    s.Some? && s.value != []
  }

  /** `create_transport`: a `ValueError` becomes `Err` with its message. */
  function CreateTransport(s: Settings): Result<Transport, string>
  {
    if s.transportType == "websocket" then
      Ok(WebsocketServer(s.wsHost, s.wsPort, true, true, false, SileroVad))
    else if s.transportType == "daily" then
      if !Truthy(s.dailyRoomUrl) || !Truthy(s.dailyToken) then
        Err(DAILY_CREDENTIALS_MISSING)
      else
        Ok(Daily(s.dailyRoomUrl.value, s.dailyToken.value, DAILY_BOT_NAME, true, true,
                 SileroVad, false))
    else
      Err(InvalidTypeMessage(s.transportType))
  }

  /** A websocket transport comes exactly from the type "websocket" and
      listens on the configured host and port, with audio both ways and no
      WAV header. */
  lemma WebsocketSelected(s: Settings)
    ensures CreateTransport(s).Ok? && CreateTransport(s).value.WebsocketServer?
      <==> s.transportType == "websocket"
    ensures s.transportType == "websocket" ==>
      var t := CreateTransport(s).value;
      t.host == s.wsHost && t.port == s.wsPort && t.audioIn && t.audioOut && !t.addWavHeader
  {
  }

  /** A Daily transport comes exactly from the type "daily" with a non-empty
      room URL and token, which it carries, under the bot name
      "Voice Agent" and with the Daily transcription off. */
  lemma DailySelected(s: Settings)
    ensures CreateTransport(s).Ok? && CreateTransport(s).value.Daily?
      <==> s.transportType == "daily" && Truthy(s.dailyRoomUrl) && Truthy(s.dailyToken)
    ensures CreateTransport(s).Ok? && CreateTransport(s).value.Daily? ==>
      var t := CreateTransport(s).value;
      && t.roomUrl == s.dailyRoomUrl.value && t.token == s.dailyToken.value
      && t.roomUrl != [] && t.token != []
      && t.botName == "Voice Agent" && t.audioIn && t.audioOut && !t.transcriptionEnabled
  {
  }

  /** The two failures: missing Daily credentials, and any type other than
      the two exact, case-sensitive names, whose message quotes the type. */
  lemma Failures(s: Settings)
    ensures CreateTransport(s).Err? <==>
      (s.transportType != "websocket" && s.transportType != "daily")
      || (s.transportType == "daily" && (!Truthy(s.dailyRoomUrl) || !Truthy(s.dailyToken)))
    ensures CreateTransport(s).Err? && s.transportType == "daily" ==>
      CreateTransport(s).error == DAILY_CREDENTIALS_MISSING
    ensures CreateTransport(s).Err? && s.transportType != "daily" ==>
      CreateTransport(s).error == InvalidTypeMessage(s.transportType)
    ensures CreateTransport(s).Err? ==> CreateTransport(s).error != []
  {
  }

  /** Each branch reads only its own fields: the websocket transport does
      not depend on the Daily credentials, nor the Daily one on the
      websocket host and port. */
  lemma BranchFieldsOnly(s: Settings, u: Settings)
    requires s.transportType == u.transportType
    ensures s.transportType == "websocket" && s.wsHost == u.wsHost && s.wsPort == u.wsPort
      ==> CreateTransport(s) == CreateTransport(u)
    ensures (s.transportType == "daily" && s.dailyRoomUrl == u.dailyRoomUrl
             && s.dailyToken == u.dailyToken) ==> CreateTransport(s) == CreateTransport(u)
    ensures s.transportType != "websocket" && s.transportType != "daily"
      ==> CreateTransport(s) == CreateTransport(u)
  {
  }
}
