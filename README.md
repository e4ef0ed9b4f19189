# auth-oathd authorization core, in Dafny

auth-oathd is a local daemon that answers yes/no questions about one-time
passwords for other processes over a Unix socket. It keeps an in-memory
directory of users, each with a shared TOTP secret and a short-lived PIN
cache. The TOTP arithmetic itself is delegated to the external `oathtool`
command. This project models and proves the daemon's authorization logic:

- **PIN cache policy** (`User.Authorize`). A candidate equal to the cached
  password is accepted without running oathtool when at most 24 hours
  have passed since it was cached. Otherwise oathtool decides, and only a
  success refills the cache with the candidate and the current time.
- **Directory lookup** (`Users.Authorize`). The first record with the
  requested name decides, whether it accepts or refuses. An unknown name
  is refused, and no other record is touched.
- **Verifier adapter** (`authorize`). An empty password is refused before
  anything runs. Otherwise the adapter builds the oathtool argument vector
  from the Base32 flag, the RFC 3339 time, the key and the password, runs
  it once, and reports the exit status.
- **Configuration validation** (`loadUsers`, after JSON decoding). The
  first entry with an empty `user`, an empty `key`, or a name already taken
  is rejected, with its 1-based position. Otherwise one fresh record per
  entry is built, in order, with an empty cache.
- **One connection** (`processAccept`, after reading and decoding). A
  request that fails to decode gets no reply and changes nothing. A decoded
  request gets `{"ok": ...}` carrying the directory's verdict.

Layout, one module per component:

- `wrappers.dfy`: `Option` and `Result`.
- `messages.dfy`: the request and response shapes.
- `verifier.dfy`: the adapter. The external world is a `Host` object. Its
  constant `accepts` says whether oathtool exits with status 0 on a given
  argument vector. Its constant `rfc3339` formats a clock reading. Its
  ghost log `runs` records every command line actually executed, so "no
  verifier call" is stated as `host.runs == old(host.runs)`.
- `directory.dfy`: the `User` class, the `Users` directory and loading.
- `daemon.dfy`: `processAccept` and two client scenarios.

Time is an integer count of nanoseconds passed in as `now`, and the window
is `24 * 3600 * 10^9`. Go's zero `time.Time` (a record never verified) is
`accessed == None`. Its elapsed time is always beyond the window, so an
empty cache never answers. In the program, both `now` and `accessed` come
from `time.Now()` and carry Go's monotonic clock reading, so the elapsed
time checked against the window is monotonic and never negative. The model
uses one integer clock for both the window and the time string handed to
oathtool, which in the program comes from the wall clock (see "## Left out").

Two invariants are kept by every step:

- `User.Valid`: the cached password is empty exactly when the cache was
  never filled, so an empty candidate never hits the cache.
- `User.Trusted`: a filled cache holds a password that oathtool accepted,
  with this user's key and at the cached time, in a run that really took
  place.

The code builds an argument vector of 8 elements, or 9 with `-b`:
`oathtool --totp=sha512 [-b] -d 8 -N <time> <key> <password>`.

## Model

| member | source | states |
|---|---|---|
| `Verifier.Argv` | auth-oathd/main.go:82-90 | the command line has 8 elements, or 9 with Base32; it starts with `oathtool --totp=sha512`; `-b` is third exactly when Base32 is set; the key and the password are the last two |
| `Verifier.ArgvRoundTrip` | auth-oathd/main.go:82-90 | every command line decodes back to the flags, time, key and password it was built from |
| `Verifier.ArgvInjective` | auth-oathd/main.go:82-92 | two different verification requests never produce the same command line |
| `Verifier.Launched` | auth-oathd/main.go:75-94 | an empty password runs nothing; any other password runs exactly one command line, the one built from its own inputs |
| `Verifier.Verdict` | auth-oathd/main.go:75-100 | the adapter accepts only a non-empty password, and only when oathtool accepted the command line that was run |
| `Verifier.Authorize` | auth-oathd/main.go:74-101 | returns the verdict and appends to the run log exactly the command lines launched: none for an empty password |
| `Directory.User.constructor` | auth-oathd/main.go:393-394 | a new record has the entry's name and key, an empty cached password and the zero time |
| `Directory.User.Authorize` | auth-oathd/main.go:30-50 | cache hit: accepts, runs nothing, changes nothing; otherwise oathtool's verdict, and only on success `pin := password`, `accessed := now`; an empty password on a consistent record is refused with no run and no change; keeps `Valid` and `Trusted` |
| `Directory.Find` | auth-oathd/main.go:55-56 | yields the first position holding the name, and nothing exactly when the name is absent |
| `Directory.FindUnique` | auth-oathd/main.go:55-65 | in a directory without repeated names, the first match is the only one |
| `Directory.Users.Authorize` | auth-oathd/main.go:54-72 | unknown name: refused, no run, no record changed; otherwise the first record with the name takes one `User.Authorize` step and decides, even when it refuses, and every other record is unchanged; keeps the directory's invariants |
| `Directory.FirstBad` | auth-oathd/main.go:378-391 | finds the first entry at or after a position that the loader would reject, or reports that there is none |
| `Directory.Validate` | auth-oathd/main.go:378-391 | the rejection names a 1-based entry position; that entry fails the checks in the loader's order and every earlier entry passes; no rejection exactly when every entry passes |
| `Directory.ValidateAcceptsWellFormed` | auth-oathd/main.go:378-391 | validation accepts exactly the entry lists with non-empty names and keys and no repeated name |
| `Directory.ValidateStopsAtFirst` | auth-oathd/main.go:378-391 | the first entry that fails decides the rejection |
| `Directory.LoadUsers` | auth-oathd/main.go:376-399 | on a bad list, returns that first rejection; otherwise one fresh record per entry, in order, with the entry's name and key and an empty cache, forming a directory with unique names |
| `Daemon.ProcessAccept` | auth-oathd/main.go:257-295 | a request that did not decode gets no reply, runs nothing and changes nothing; a decoded one gets a reply whose `ok` is the directory's verdict |
| `Daemon.CachedLoginScenario` | auth-oathd/main.go:30-50 | alice accepted with "000000" is accepted again within 24 hours from the cache, and after the window oathtool runs again: two runs for three logins |
| `Daemon.RefusalScenario` | auth-oathd/main.go:54-72 | an unknown user is refused and undecodable bytes get no reply, neither running oathtool, and the next valid login still succeeds |

## Left out

- Reading the configuration file, the regular-file check and JSON decoding in `loadUsers`: the model starts from the decoded entries. A JSON `null` entry, which the Go code would dereference, cannot be expressed.
- The rejection branches of `loadUsers` (auth-oathd/main.go:380, 384, 389) wrap the error variable `err`, which is nil at that point. If the wrapping library returns nil for a nil error, `loadUsers` returns no directory and no error on a bad entry, and `main` (auth-oathd/main.go:150-158) goes on to serve an empty directory instead of exiting with status 2. What the library does is not part of this model: the model assumes the rejection happens, and records it with its entry position.
- One clock: the integer `now` stands for both Go's monotonic reading, used by the 24-hour window (auth-oathd/main.go:34), and its wall reading, used for the time string given to oathtool (auth-oathd/main.go:80). Changes to the wall clock, which move one and not the other, are not modelled.
- Running `oathtool` and formatting the time as RFC 3339: both are the abstract `Host.accepts` and `Host.rfc3339`. The verdict is a fixed function of the command line.
- `time.Now()`: the clock is the parameter `now`, in nanoseconds. Go's saturation of very large durations only matters for the zero time, which `None` covers.
- Socket I/O in `processAccept` (reading, half-close, writing, closing), `listenUnix` with its ownership and permission bits, and `removeFile`: operating-system I/O.
- The accept goroutine, the channel, and the signal `select` in `start`, `acceptUnix` and `acceptUnixSync`: concurrency and signal handling. Connections are modelled one at a time, as `start` serves them.
- `checkUserGroup`, flag parsing and exit codes in `init` and `main`: user-database lookups and process plumbing.
- Logging: it has no bearing on any result.
- The client program `auth-oath/main.go` is not part of this model.
