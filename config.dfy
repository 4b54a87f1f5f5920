/**
 * The constants of utils/config.js that the modelled code reads.
 */
module PopcornConfig {
  /** `PopcornConfig.CACHE.TTL`: one week, in milliseconds. */
  const CACHE_TTL: nat := 7 * 24 * 60 * 60 * 1000

  /** `PopcornConfig.CACHE.PREFIX`: the start of every cache key. */
  const CACHE_PREFIX: string := "popcorn_cache_"

  /** `PopcornConfig.API.BASE_URL` (repeated as `TMDB_API.BASE_URL`). */
  const API_BASE_URL: string := "https://api.themoviedb.org/3"
}
