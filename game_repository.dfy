/**
 * The game package's in-memory lobby store: lobbies are plain values
 * kept in a map from pin to lobby.
 */
module GameRepository {
  import opened Wrappers
  import MapEnum

  /** The lobby record this store keeps (its `Game` part flattened). */
  datatype Lobby = Lobby(
    pin: string,
    hostname: string,
    timePerQuestion: int,
    startedAt: int,
    endedAt: int,
    createdAt: int,
    currentQuestion: string,
    currentQuestionTimeout: int)

  /** `Lobby{}`: every field at its zero value. */
  const ZeroLobby := Lobby("", "", 0, 0, 0, 0, "", 0)

  datatype RepoError =
    | LobbyNotFound      // "lobby not found"
    | LobbyAlreadyExists // "game already exists"

  class InMemoryLobbyRepository {
    var lobbies: map<string, Lobby>

    /** `NewInMemoryLobbyRepository`: an empty store. */
    constructor ()
      ensures lobbies == map[]
    {
      lobbies := map[];
    }

    /** `AddLobby`: refuses a pin already in use, otherwise stores under the pin. */
    method AddLobby(l: Lobby) returns (err: Option<RepoError>)
      modifies this
      ensures err == (if l.pin in old(lobbies) then Some(LobbyAlreadyExists) else None)
      ensures lobbies == if err.None? then old(lobbies)[l.pin := l] else old(lobbies)
    {
      if l.pin in lobbies {
        return Some(LobbyAlreadyExists);
      }
      lobbies := lobbies[l.pin := l];
      return None;
    }

    /** `UpdateLobby`: refuses an unknown pin, otherwise replaces that entry only. */
    method UpdateLobby(l: Lobby) returns (err: Option<RepoError>)
      modifies this
      ensures err == (if l.pin !in old(lobbies) then Some(LobbyNotFound) else None)
      ensures lobbies == if err.None? then old(lobbies)[l.pin := l] else old(lobbies)
      ensures lobbies.Keys == old(lobbies).Keys
    {
      if l.pin !in lobbies {
        return Some(LobbyNotFound);
      }
      lobbies := lobbies[l.pin := l];
      return None;
    }

    /** `GetLobby`: the stored lobby, or the zero lobby with an error. */
    function GetLobby(pin: string): (r: (Lobby, Option<RepoError>))
      reads this
      ensures r.1.None? <==> pin in lobbies
      ensures r.1.Some? ==> r == (ZeroLobby, Some(LobbyNotFound))
      ensures r.1.None? ==> r.0 == lobbies[pin]
    {
      if pin in lobbies then (lobbies[pin], None) else (ZeroLobby, Some(LobbyNotFound))
    }

    /** `DeleteLobby`: removes exactly that pin, or fails if it is absent. */
    method DeleteLobby(pin: string) returns (err: Option<RepoError>)
      modifies this
      ensures err == (if pin !in old(lobbies) then Some(LobbyNotFound) else None)
      ensures lobbies == old(lobbies) - {pin}
    {
      if pin !in lobbies {
        return Some(LobbyNotFound);
      }
      lobbies := lobbies - {pin};
      return None;
    }

    /** `GetAllLobbies`: every stored lobby exactly once, in map order. */
    method GetAllLobbies() returns (r: seq<Lobby>, ghost pins: seq<string>)
      ensures MapEnum.Enumerates(pins, lobbies.Keys)
      ensures |r| == |pins| == |lobbies|
      ensures forall i :: 0 <= i < |r| ==> r[i] == lobbies[pins[i]]
    {
      r, pins := MapEnum.Values(lobbies);
    }
  }
}
