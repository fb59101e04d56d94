/** The ways a run of the handler can end in failure. */
module Failures {

  datatype Failure =
    /** An error a collaborator (iCloud, the game client) passed to its callback. */
    | Reported(detail: string)
    /** No device with a location matched the configured name, so no location reached the next stage. */
    | NoLocation
    /** `pokemonlist[n - 1]` was undefined, so assigning its `name` raised a TypeError. */
    | SpeciesUndefined(pokedexNumber: int)
    /** A 5xx reply reached `callback(...)`, an identifier that is not defined, which raises a ReferenceError. */
    | CallbackUndefined
    /** The POST request emitted `error`, for which no listener is registered. */
    | RequestFailed(detail: string)
}
