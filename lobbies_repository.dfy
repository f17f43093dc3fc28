/**
 * The lobbies package's in-memory lobby store: references to lobbies kept
 * in a map from pin to lobby. The store files a lobby under the pin the
 * lobby holds when it is added or updated.
 */
module LobbiesRepository {
  import opened Wrappers
  import MapEnum
  import LobbiesLobby

  datatype RepoError =
    | LobbyNotFound      // errLobbyNotFound: "lobby not found"
    | LobbyAlreadyExists // errLobbyAlreadyExists: "game already exists"

  class InMemoryLobbyRepository {
    var lobbies: map<string, LobbiesLobby.Lobby>

    /** `newInMemoryLobbyRepository`: an empty store. */
    constructor ()
      ensures lobbies == map[]
    {
      lobbies := map[];
    }

    /** `AddLobby`: refuses a pin already in use, otherwise stores the lobby under its pin. */
    method AddLobby(l: LobbiesLobby.Lobby) returns (err: Option<RepoError>)
      modifies this
      ensures err == (if l.pin in old(lobbies) then Some(LobbyAlreadyExists) else None)
      ensures lobbies == if err.None? then old(lobbies)[l.pin := l] else old(lobbies)
    {
      if l.pin in lobbies {
        return Some(LobbyAlreadyExists);
      }
      lobbies := lobbies[l.pin := l];
      return None;
    }

    /** `UpdateLobby`: refuses an unknown pin, otherwise replaces that entry only. */
    method UpdateLobby(l: LobbiesLobby.Lobby) returns (err: Option<RepoError>)
      modifies this
      ensures err == (if l.pin !in old(lobbies) then Some(LobbyNotFound) else None)
      ensures lobbies == if err.None? then old(lobbies)[l.pin := l] else old(lobbies)
      ensures lobbies.Keys == old(lobbies).Keys
    {
      if l.pin !in lobbies {
        return Some(LobbyNotFound);
      }
      lobbies := lobbies[l.pin := l];
      return None;
    }

    /** `GetLobby`: the stored lobby, or a new zero lobby together with an error. */
    method GetLobby(pin: string) returns (l: LobbiesLobby.Lobby, err: Option<RepoError>)
      ensures err.None? <==> pin in lobbies
      ensures err.None? ==> l == lobbies[pin]
      ensures err.Some? ==> err == Some(LobbyNotFound) && fresh(l)
      ensures err.Some? ==> l.State() == LobbiesLobby.LobbyData(None, None, "", 0, 0, map[], {},
                                          LobbiesLobby.LsWaitingForPlayers, None, None, 0, None, 0)
    {
      if pin !in lobbies {
        l := new LobbiesLobby.Lobby.Zero();
        return l, Some(LobbyNotFound);
      }
      return lobbies[pin], None;
    }

    /** `DeleteLobby`: removes exactly that pin, or fails if it is absent. */
    method DeleteLobby(pin: string) returns (err: Option<RepoError>)
      modifies this
      ensures err == (if pin !in old(lobbies) then Some(LobbyNotFound) else None)
      ensures lobbies == old(lobbies) - {pin}
    {
      if pin !in lobbies {
        return Some(LobbyNotFound);
      }
      lobbies := lobbies - {pin};
      return None;
    }

    /** `GetAllLobbies`: every stored lobby exactly once, in map order. */
    method GetAllLobbies() returns (r: seq<LobbiesLobby.Lobby>, ghost pins: seq<string>)
      ensures MapEnum.Enumerates(pins, lobbies.Keys)
      ensures |r| == |pins| == |lobbies|
      ensures forall i :: 0 <= i < |r| ==> r[i] == lobbies[pins[i]]
    {
      r, pins := MapEnum.Values(lobbies);
    }
  }
}
