/** `PlayerManager` and the symbol alphabet shared by players and the bot. */
module Players {

  /** The two player symbols; 'O' always moves first. */
  predicate IsPlayer(p: char)
  {
    p == 'O' || p == 'X'
  }

  /** The other player's symbol: 'X' after 'O' and 'O' after anything else. This is both
      `switchPlayer` and the bot's `opponentSymbol` initialiser. */
  function Other(p: char): (q: char)
    ensures IsPlayer(q)
    ensures q != p
  {
    if p == 'O' then 'X' else 'O'
  }

  datatype PlayerManager = PlayerManager(currentPlayer: char)

  /** The constructor: the first player is 'O'. */
  function NewPlayerManager(): (pm: PlayerManager)
    ensures pm.currentPlayer == 'O'
  {
    PlayerManager('O')
  }

  /** `switchPlayer`: hands the turn to the other symbol. */
  function SwitchPlayer(pm: PlayerManager): (pm': PlayerManager)
    ensures IsPlayer(pm'.currentPlayer)
    ensures pm'.currentPlayer != pm.currentPlayer
  {
    PlayerManager(Other(pm.currentPlayer))
  }

  /** Switching twice gives the turn back, for either player. */
  lemma SwitchTwice(pm: PlayerManager)
    requires IsPlayer(pm.currentPlayer)
    ensures SwitchPlayer(SwitchPlayer(pm)) == pm
  {
  }
}
