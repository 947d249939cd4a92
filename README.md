# TLS handshake machines and handshake messages, in Dafny

This project models two parts of the `tls` Python library.

**The handshake state machines** of `tls/_handshake.py`:
- the shared post-handshake machine `TLSCommon`;
- the client machine `TLSClient` and the server machine `TLSServer`, each composed from `TLSCommon`;
- the rules of the declarative engine these tables are written for.

The source describes that engine only in a docstring, so the model gives it explicit rules:
- A table is a value (`StateMachine.Machine`).
- `machine.transitions(...)` is a validator, `StateMachine.Finalize`. It accepts a table exactly when the table is well formed. An undeclared initial or terminal state is reported as `UndeclaredState`, which names no row; every other refusal names the row at fault.
- Composition from `TLSCommon` is `StateMachine.Submachine`. `TLSCommon` itself is never changed by it.
- Firing an input is `StateMachine.Step`, followed by `StateMachine.Emit`. Emit invokes the row's outputs in order, and passes each one the input arguments whose names are among its parameters.

`Handshake.Connection` is one running client or server. It is a class with:
- a current state;
- the `finished_data_from_server` field;
- a trace of the outputs it has invoked, each with its arguments.

Its `Fire` method is proved against two specification functions:
- `Handshake.Reference`, the three tables written out state by state, independently of the rows;
- `Handshake.Invocations`, which says what each output receives.

`Handshake.History` is the invariant the connection keeps. It states which output traces each state allows. From it, `Handshake.HistoryOrder` proves the ordering guarantees:
- the hello comes first;
- no application data is sent before `send_finished`;
- closing starts only after the handshake;
- `indicate_eof` is the last output in `shutdown`.

**The handshake-message codec.** Its parser source is not part of this model. Its behaviour is fixed by the byte vectors of `tls/test/test_message.py`, and follows the TLS 1.2 layouts of section 7.4 of RFC 5246. `Wire` holds the presentation grammar:
- big-endian integers;
- fixed byte strings;
- opaque vectors;
- list vectors.

A generic `Codec` packages a reader with a writer, and `Sound` states that they are inverse in both directions. `Message` builds every structure the tests exercise on top of it, then the envelope that dispatches on the message type. `MessageVectors` proves that each test vector reads as exactly the record the test inspects. `MessageVectors.UnknownTypeVector` goes beyond the tests: no test uses a type byte outside the defined set.

The tests exercise only parsers (the `parse_*` functions they import). The writers and the round-trip lemmas (`...Written`, `...CodecSound`, `ParseHandshakeWritten`, `TruncatedHandshakeRejected`) go beyond what the tests assert. They are the partner against which every parser is proved: whatever a parser reads is a valid value whose encoding is exactly the bytes it consumed.

Where the tests and RFC 5246 disagree, the model follows the tests:
- The envelope's length field is four bytes, not the RFC's uint24 (`test_message.py:132`).
- Certificate's total length is four bytes (`test_message.py:99`), and so is each certificate entry's length (`test_message.py:100`). Section 7.4.2 of RFC 5246 gives both as uint24 (three bytes); here the test vectors win.

## Model

| member | source | states |
|---|---|---|
| StateMachine.Finalize | tls/_handshake.py:25-28 | The declaration check accepts a table exactly when it is well formed: names declared, at most one row per (state, input), every output's required parameters among its input's, no row leaving a terminal state. It reports `UndeclaredState` (naming no row) exactly when the initial or terminal states are not all declared; any other refusal names a row (and output) that breaks the violated rule. |
| StateMachine.FinalizeReportsTheMismatch | tls/_handshake.py:79-84 | When the only defect is one output missing a parameter of its input, the check reports exactly that row and output. |
| StateMachine.Submachine | tls/_handshake.py:185 | Composing from a base succeeds exactly when no new name collides with the base and the merged table (the base's declarations and rows, then the new ones) is well formed, and it then returns that merged table; it fails with `DuplicateDeclaration` exactly when a name collides. |
| StateMachine.Step | tls/_handshake.py:160 | Firing finds nothing exactly when no row has that state and input; otherwise it returns the target and outputs of such a row. |
| StateMachine.StepFindsRow | tls/_handshake.py:160-172 | In a table with one row per pair, firing a row's input in its state takes exactly that row. |
| StateMachine.StepAgreesWith | tls/_handshake.py:160-172 | A table with one row per pair is the step function that gives every row's target and outputs and names no other pair. |
| StateMachine.SubmachineKeepsBase | tls/_handshake.py:185 | A composed machine fires every (state, input) the base handles exactly as the base does. |
| StateMachine.StepDeclared | tls/_handshake.py:25-28 | In a well-formed machine, firing never reaches an undeclared state or output. |
| StateMachine.Emit | tls/_handshake.py:16-18 | A row's outputs are invoked one each, in their listed order, and each gets exactly those input arguments whose names are among its parameters, with the input's values. |
| StateMachine.FiredOutputsReceiveTheirArguments | tls/_handshake.py:79-84 | With the parameter rule checked, an input called with its own parameters gives every output all its required arguments, only parameters it declares, each with the input's value. |
| StateMachine.EmitKeepsOrder | tls/_handshake.py:10-14 | The names emitted by a row are its outputs, in table order. |
| StateMachine.RunPreserves | tls/_handshake.py:10-14 | A property of (state, outputs so far) that every single firing keeps is kept by any sequence of inputs. |
| Handshake.CommonIsValid | tls/_handshake.py:156-176 | The `TLSCommon` table passes every declaration check. |
| Handshake.CommonWellFormed | tls/_handshake.py:156-176 | `TLSCommon`'s rows are declared, one per pair, never leave `shutdown`, and fit the parameter rule. |
| Handshake.ClientIsValid | tls/_handshake.py:254-262 | Composing `TLSClient` from `TLSCommon` succeeds and yields the shared rows followed by the client's. |
| Handshake.ClientWellFormed | tls/_handshake.py:254-262 | The composed client table passes every declaration check. |
| Handshake.ClientDeclaresNewNames | tls/_handshake.py:187-251 | No state, input or output `TLSClient` declares collides with one of `TLSCommon`. |
| Handshake.ClientRowFits | tls/_handshake.py:79-84 | Every output of every client row takes only parameters its input has. |
| Handshake.ServerIsValid | tls/_handshake.py:360-381 | Composing `TLSServer` from `TLSCommon` succeeds and yields the shared rows followed by the server's. |
| Handshake.ServerWellFormed | tls/_handshake.py:360-381 | The composed server table passes every declaration check. |
| Handshake.ServerDeclaresNewNames | tls/_handshake.py:272-357 | No state, input or output `TLSServer` declares collides with one of `TLSCommon`. |
| Handshake.ServerRowFits | tls/_handshake.py:79-84 | Every output of every server row takes only parameters its input has, counting `session_id` as optional. |
| Handshake.StrictServerHelloRejected | tls/_handshake.py:320-324 | Without the default on `session_id`, composing `TLSServer` is refused, at the `id_not_found_somehow` row and `send_server_hello`: parameters with defaults must count as optional. |
| Handshake.StrictServerOnlyMismatch | tls/_handshake.py:371-372 | In that strict table, an output misses a parameter if and only if it is `send_server_hello` on the `id_not_found_somehow` row. |
| Handshake.StrictFits | tls/_handshake.py:320-324 | The strict table fits outputs to inputs as `TLSServer` does, except that `send_server_hello` then fits only `id_found_somehow`. |
| Handshake.MachineOfIsWellFormed | tls/_handshake.py:254-262 | Client and server are well formed, start in `idle` alone and end in `shutdown` alone. |
| Handshake.CommonRowsAreReference | tls/_handshake.py:156-176 | Every `TLSCommon` row is the reference step of its state and input, for both roles. |
| Handshake.ClientRowsAreReference | tls/_handshake.py:254-262 | Every client row is the client's reference step. |
| Handshake.ServerRowsAreReference | tls/_handshake.py:360-381 | Every server row is the server's reference step. |
| Handshake.ReferenceIsARow | tls/_handshake.py:360-381 | Every reference step is a row of its role's table. |
| Handshake.ReferenceFits | tls/_handshake.py:79-84 | Every output of a reference step belongs to the role, and requires only parameters its input carries. |
| Handshake.StepIsReference | tls/_handshake.py:156-381 | Firing in the client or server table is that role's reference step: listed rows are taken with their outputs in order; every other pair (any `buffer`, anything in `shutdown`, `received_finished` in `idle`) has no successor. |
| Handshake.HistoryReference | tls/_handshake.py:162-171 | Every reference step keeps the outputs-so-far invariant of its role, including the close sequences. |
| Handshake.HistoryStep | tls/_handshake.py:10-14 | Every firing keeps the outputs-so-far invariant. |
| Handshake.HistoryRun | tls/_handshake.py:10-14 | Any sequence of inputs keeps the outputs-so-far invariant. |
| Handshake.RunFromIdle | tls/_handshake.py:254-255 | Whatever inputs are fired from `idle`, the outputs emitted form a valid history of the state reached. |
| Handshake.EstablishedOrder | tls/_handshake.py:254-260 | Once established, the trace starts with the role's hello, contains `send_finished`, writes no data before it, and (for a client) never refuses renegotiation. |
| Handshake.HistoryOrder | tls/_handshake.py:162-171 | In every reachable history: the hello is first, no `write_app_data` comes before `send_finished`, `app_data`/closing/`shutdown` come only after `send_finished`, `shutdown` follows a `send_close_notify` and ends with `indicate_eof`, and a client never sends `send_no_renegotiation`. |
| Handshake.CommonInputs | tls/_handshake.py:96-116 | `TLSCommon`'s inputs are `write_data(plaintext)`, `received_close_notify()` and `close_notify_called()`. |
| Handshake.ClientInputsAreDeclared | tls/_handshake.py:208-251 | The client's inputs are the shared ones plus `receive_finished(data)`, `begin()`, `receive_server_hello_done(server_hello_done)` and `buffer()`, with those parameters. |
| Handshake.ServerInputsAreDeclared | tls/_handshake.py:279-302 | The server's inputs are the shared ones plus `client_hello_received()`, `id_found_somehow(session_id)`, `id_not_found_somehow()` and `received_finished()`. |
| Handshake.InputsAreDeclared | tls/_handshake.py:96-116 | A role accepts an input exactly when its machine declares it, with the parameters its signature names. |
| Handshake.CommonOutputs | tls/_handshake.py:86-140 | `TLSCommon`'s outputs are `write_app_data(plaintext)` and four parameterless outputs. |
| Handshake.ClientOutputsAreDeclared | tls/_handshake.py:231-244 | The client's outputs are the shared ones plus parameterless `send_client_hello` and `send_finished`. |
| Handshake.ServerOutputsAreDeclared | tls/_handshake.py:320-357 | The server's outputs are the shared ones plus `send_server_hello(session_id=None)` and three parameterless outputs. |
| Handshake.SignatureOfOutput | tls/_handshake.py:320-324 | The signature each machine declares for an output is the independent `OutputParams`. |
| Handshake.EmitIsInvocations | tls/_handshake.py:16-18 | Invoking through the machine's declarations passes exactly the arguments `Invocations` says. |
| Handshake.PlainInvocations | tls/_handshake.py:16-18 | Outputs none of whose parameters the input carries receive no arguments, whatever else the input had. |
| Handshake.ResumedInvocations | tls/_handshake.py:366-367 | On resumption `send_server_hello` receives the `session_id` and `send_finished` nothing. |
| Handshake.WriteInvocations | tls/_handshake.py:79-82 | `write_app_data` receives the `plaintext` given to `write_data`, unchanged. |
| Handshake.Connection.constructor | tls/_handshake.py:254-255 | A new connection is in `idle`, has emitted nothing and stores no Finished data. |
| Handshake.Connection.Invoke | tls/_handshake.py:16-18 | The trace grows by the outputs in order, each with its forwarded arguments; the state is untouched. |
| Handshake.Connection.Fire | tls/_handshake.py:10-14 | With no reference step, nothing runs and the input is reported unhandled. Otherwise the input body runs (`receive_finished` stores its data), the state becomes the reference target, and the trace grows by exactly the reference outputs with their arguments; the history invariant is kept. |
| Handshake.HistoryFire | tls/_handshake.py:10-14 | Firing keeps the history: the trace grows by the row's outputs, in order. |
| Handshake.ClientBegin | tls/_handshake.py:257 | `idle --begin--> wait_1` emits exactly `send_client_hello`. |
| Handshake.ClientServerHelloDone | tls/_handshake.py:258 | `wait_1 --receive_server_hello_done--> wait_2` emits exactly `send_finished`, passing the message to no output. |
| Handshake.ClientReceiveFinished | tls/_handshake.py:208-213 | `wait_2 --receive_finished(data)--> app_data` emits nothing and leaves `finished_data_from_server == data`. |
| Handshake.ClientHandshake | tls/_handshake.py:254-260 | A new client's full handshake ends in `app_data` with trace `[send_client_hello, send_finished]` and the server's Finished stored. |
| Handshake.ClientBuffer | tls/_handshake.py:247-251 | `buffer` is unhandled in every state and changes nothing. |
| Handshake.ServerClientHello | tls/_handshake.py:363 | `idle --client_hello_received--> check_session_cache` emits nothing. |
| Handshake.ServerSessionNotFound | tls/_handshake.py:371-372 | `--id_not_found_somehow--> wait` emits `send_server_hello` (no session id) then `send_server_hello_done`. |
| Handshake.ServerSessionFound | tls/_handshake.py:366-367 | `--id_found_somehow(session_id)--> wait_resume` emits `send_server_hello(session_id)` then `send_finished`. |
| Handshake.ServerFinishedNewSession | tls/_handshake.py:374 | `wait --received_finished--> app_data` emits exactly `send_finished`. |
| Handshake.ServerFinishedResumed | tls/_handshake.py:375 | `wait_resume --received_finished--> app_data` emits nothing. |
| Handshake.ServerNewSession | tls/_handshake.py:363-374 | A new server's full handshake for a new session ends in `app_data` with trace `[send_server_hello, send_server_hello_done, send_finished]`. |
| Handshake.ServerResumedSession | tls/_handshake.py:363-375 | A resumed session ends in `app_data` with trace `[send_server_hello(session_id), send_finished]`. |
| Handshake.ServerRefusesRenegotiation | tls/_handshake.py:377-378 | A ClientHello in `app_data` is answered by `send_no_renegotiation` alone, staying in `app_data`. |
| Handshake.ServerFinishedTooEarly | tls/_handshake.py:360-381 | `received_finished` in `idle` is unhandled and changes nothing. |
| Handshake.WriteApplicationData | tls/_handshake.py:162 | `write_data(plaintext)` in `app_data` emits `write_app_data(plaintext)` and stays in `app_data`. |
| Handshake.CloseByPeer | tls/_handshake.py:163-166 | `received_close_notify` in `app_data` emits `send_close_notify`, `close_transport_later`, `indicate_eof` in that order and reaches `shutdown`. |
| Handshake.CloseByHost | tls/_handshake.py:167-168 | `close_notify_called` in `app_data` emits `send_close_notify` and reaches `host_initiated_closing`. |
| Handshake.ClosingCompleted | tls/_handshake.py:169-171 | `received_close_notify` in `host_initiated_closing` emits `close_transport_now`, `indicate_eof` and reaches `shutdown`. |
| Wire.ReadUint | tls/test/test_message.py:98-100 | A big-endian integer read fails exactly when too few bytes remain; a value read is below 256^width and its encoding is the bytes consumed. |
| Wire.ReadUintWritten | tls/test/test_message.py:98-100 | Reading an encoded integer gives it back and leaves what followed. |
| Wire.DecodeEncodeUint | tls/test/test_message.py:132 | Decoding the big-endian encoding of a value that fits gives the value back. |
| Wire.EncodeDecodeUint | tls/test/test_message.py:132 | Encoding a decoded value at the same width gives back the bytes. |
| Wire.ReadFixed | tls/test/test_message.py:80-83 | A fixed-size field read succeeds exactly when enough bytes remain, and is those bytes. |
| Wire.ReadOpaque | tls/test/test_message.py:57-65 | An opaque vector read is a length that fits its field, then exactly that many bytes, as written back. |
| Wire.ReadOpaqueWritten | tls/test/test_message.py:57-65 | Reading a written opaque vector gives back the data and leaves what followed. |
| Wire.UintCodecSound | tls/test/test_message.py:23 | Integer codecs read back what they write and write back what they read. |
| Wire.OpaqueCodecSound | tls/test/test_message.py:99-101 | Opaque-vector codecs read back what they write and write back what they read. |
| Wire.ReadExtends | tls/test/test_message.py:57-69 | For a sound codec, a readable prefix reads the same whatever bytes follow it. |
| Wire.TruncatedEncodingRejected | tls/test/test_message.py:97-105 | For a sound codec, a valid value's encoding cut short anywhere is refused. |
| Wire.SoundByParts | tls/test/test_message.py:19-36 | A codec whose writer always writes something, and whose reader and writer are mutually inverse, is sound. |
| Wire.EnumCodecSound | tls/test/test_message.py:21-25 | One-byte enumerations whose decoder inverts their code read back and write back exactly. |
| Wire.ReadItemsWritten | tls/test/test_message.py:97-105 | Records written back to back read back as the same list. |
| Wire.WriteItemsRead | tls/test/test_message.py:97-105 | A list read from bytes is valid and written back as exactly those bytes. |
| Wire.ReadListWritten | tls/test/test_message.py:20-28 | A list vector written reads back as the same list, leaving what followed. |
| Wire.WriteListRead | tls/test/test_message.py:20-28 | A list vector read is valid and is encoded as exactly the bytes consumed. |
| Wire.ListCodecSound | tls/test/test_message.py:20-28 | List-vector codecs over sound record codecs are sound. |
| Message.DecodeClientCertificateType | tls/test/test_message.py:30 | A decoded byte is the type's code; an unknown byte is `UnknownEnumValue` of it. |
| Message.ClientCertificateTypeCodes | tls/test/test_message.py:30 | Every certificate type's code (`rsa_sign` = 1) decodes to it, and only codes decode. |
| Message.DecodeHashAlgorithm | tls/test/test_message.py:32-33 | A decoded byte is the algorithm's code; an unknown byte is `UnknownEnumValue` of it. |
| Message.HashAlgorithmCodes | tls/test/test_message.py:32-33 | Every hash algorithm's code (MD5 = 1) decodes to it, and only codes decode. |
| Message.DecodeSignatureAlgorithm | tls/test/test_message.py:34-35 | A decoded byte is the algorithm's code; an unknown byte is `UnknownEnumValue` of it. |
| Message.SignatureAlgorithmCodes | tls/test/test_message.py:34-35 | Every signature algorithm's code (RSA = 1) decodes to it, and only codes decode. |
| Message.DecodeHandshakeType | tls/test/test_message.py:231-241 | A decoded byte is the type's code; a byte outside the set is `UnknownHandshakeType` of it. |
| Message.HandshakeTypeCodes | tls/test/test_message.py:137 | Every message type's code (ClientHello = 1, ...) decodes to it, and only codes decode. |
| Message.ParseProtocolVersion | tls/test/test_message.py:86-88 | A version read succeeds exactly when two bytes remain, and is major then minor. |
| Message.ParseProtocolVersionWritten | tls/test/test_message.py:86-88 | Reading a written version gives it back. |
| Message.ParseRandom | tls/test/test_message.py:116-117 | A random read succeeds exactly when 32 bytes remain: a four-byte time and 28 bytes. |
| Message.ParseRandomWritten | tls/test/test_message.py:116-117 | Reading a written random gives it back. |
| Message.ParseExtension | tls/test/test_message.py:125-127 | An extension read is a two-byte type and an opaque vector with a two-byte length, written back as the bytes consumed. |
| Message.ParseExtensionWritten | tls/test/test_message.py:125-127 | Reading a written extension gives it back. |
| Message.ExtensionCodecSound | tls/test/test_message.py:124-127 | Extensions read back as written and write back as read. |
| Message.ParseClientHelloRead | tls/test/test_message.py:114-128 | A ClientHello read is valid and is encoded as exactly the bytes consumed. |
| Message.ParseClientHelloWritten | tls/test/test_message.py:114-128 | Reading a written ClientHello gives it back and leaves what followed. |
| Message.ClientHelloCodecSound | tls/test/test_message.py:114-128 | ClientHello reads back as written, and writes back as read. |
| Message.ParseServerHelloRead | tls/test/test_message.py:142-154 | A ServerHello read is valid and is encoded as exactly the bytes consumed. |
| Message.ParseServerHelloWritten | tls/test/test_message.py:142-154 | Reading a written ServerHello gives it back and leaves what followed. |
| Message.ServerHelloCodecSound | tls/test/test_message.py:142-154 | ServerHello reads back as written, and writes back as read. |
| Message.ParseCertificate | tls/test/test_message.py:97-105 | A Certificate read is valid and is encoded (four-byte total length, four-byte entries) as the bytes consumed. |
| Message.ParseCertificateWritten | tls/test/test_message.py:97-105 | Reading a written Certificate gives it back. |
| Message.CertificateCodecSound | tls/test/test_message.py:97-105 | Certificate reads back as written, and writes back as read. |
| Message.ParseSignatureAndHashAlgorithm | tls/test/test_message.py:24-25 | A pair read is the hash byte then the signature byte; two known bytes always read. |
| Message.ParseSignatureAndHashAlgorithmWritten | tls/test/test_message.py:24-25 | Reading a written pair gives it back. |
| Message.SignatureAndHashAlgorithmCodecSound | tls/test/test_message.py:24-25 | Signature-and-hash pairs read back as written and write back as read. |
| Message.ParseCertificateRequestRead | tls/test/test_message.py:19-36 | A CertificateRequest read is valid and is encoded as exactly the bytes consumed. |
| Message.ParseCertificateRequestWritten | tls/test/test_message.py:19-36 | Reading a written CertificateRequest gives it back. |
| Message.CertificateRequestCodecSound | tls/test/test_message.py:19-36 | CertificateRequest reads back as written, and writes back as read. |
| Message.ParseServerDhParams | tls/test/test_message.py:57-69 | Diffie-Hellman parameters read are three opaque vectors, encoded as the bytes consumed; failure is `Malformed`. |
| Message.ParseServerDhParamsWritten | tls/test/test_message.py:57-69 | Reading written parameters gives them back. |
| Message.ServerDhParamsCodecSound | tls/test/test_message.py:57-69 | Diffie-Hellman parameters read back as written and write back as read. |
| Message.ParsePreMasterSecret | tls/test/test_message.py:77-89 | A premaster secret read succeeds exactly when 48 bytes remain: a version and 46 bytes as they are. |
| Message.ParsePreMasterSecretWritten | tls/test/test_message.py:77-89 | Reading a written premaster secret gives it back. |
| Message.PreMasterSecretCodecSound | tls/test/test_message.py:77-89 | Premaster secrets read back as written and write back as read. |
| Message.ParseBodyRead | tls/test/test_message.py:113-241 | A body is absent exactly for types with no body parser (never an error); a present body has the message's type, is valid, and is encoded as the whole of the bytes given. |
| Message.ParseBodyWritten | tls/test/test_message.py:113-205 | Every valid body, written, reads back as itself under its own type. |
| Message.ParseHeader | tls/test/test_message.py:130-133 | A header read is the type's byte and the length in four bytes; an unknown type byte is `UnknownHandshakeType`. |
| Message.ParseHeaderWritten | tls/test/test_message.py:130-133 | Reading a written header gives back the type and the length. |
| Message.ParseHandshake | tls/test/test_message.py:231-241 | A message whose type byte is outside the defined set is refused with `UnknownHandshakeType` of that byte. |
| Message.ParseHandshakeReadsOneMessage | tls/test/test_message.py:130-139 | A message read consumes five header bytes and exactly `length` more; its first byte is its type; its body is absent exactly for types with no parser; a present body is valid, of that type, with `length` its encoded size, and the bytes consumed are its encoding. |
| Message.ParseHandshakeWritten | tls/test/test_message.py:130-139 | Reading a written message gives back its type, its body's length and its body, and leaves what followed. |
| Message.TruncatedHandshakeRejected | tls/test/test_message.py:130-133 | A written message cut short anywhere, header included, is refused as `Malformed`. |
| MessageVectors.CertificateRequestVector | tls/test/test_message.py:19-36 | `01 01 0002 01 01 0000` reads to `[rsa_sign]`, one (MD5, RSA) pair and empty authorities, with nothing left. |
| MessageVectors.CertificateRequestWithAuthoritiesVector | tls/test/test_message.py:38-49 | The authorities `03` come back as those opaque bytes. |
| MessageVectors.ServerDhParamsVector | tls/test/test_message.py:57-69 | The three vectors read as `123`, `5678` and `78`. |
| MessageVectors.PreMasterSecretVector | tls/test/test_message.py:77-89 | For any 46 bytes, `03 00` then those bytes read as version 3.0 and the same bytes. |
| MessageVectors.CertificateVector | tls/test/test_message.py:97-105 | `00000007 00000003 ABC` reads to the one certificate `ABC`. |
| MessageVectors.ClientHelloPacketWritten | tls/test/test_message.py:114-128 | The ClientHello bytes of the test are the encoding of a valid ClientHello, 51 bytes long. |
| MessageVectors.ClientHelloEnvelopeVector | tls/test/test_message.py:113-139 | Type 1, length 51 reads as a ClientHello message whose body is that ClientHello. |
| MessageVectors.ServerHelloPacketWritten | tls/test/test_message.py:142-154 | The ServerHello bytes of the test are the encoding of a valid ServerHello, 80 bytes long. |
| MessageVectors.ServerHelloEnvelopeVector | tls/test/test_message.py:141-165 | Type 2, length 80 reads as a ServerHello message whose body is that ServerHello. |
| MessageVectors.CertificateRequestEnvelopeVector | tls/test/test_message.py:167-187 | Type 13, length 8 reads as a CertificateRequest message. |
| MessageVectors.CertificateEnvelopeVector | tls/test/test_message.py:189-205 | Type 11, length 11 reads as a Certificate message. |
| MessageVectors.HelloRequestVector | tls/test/test_message.py:207-217 | Type 0, length 0 reads as an empty HelloRequest. |
| MessageVectors.ServerHelloDoneVector | tls/test/test_message.py:219-229 | Type 14, length 0 reads as an empty ServerHelloDone. |
| MessageVectors.ServerKeyExchangeVector | tls/test/test_message.py:231-241 | Type 12 is recognised: the message reads with length 0 and no body. |
| MessageVectors.UnknownTypeVector | tls/test/test_message.py:137 | Beyond the tests: a type byte with no `HandshakeType` value (3) is refused as an unknown type, whatever follows. |

## Left out

- Output bodies: `write_app_data`'s encryption and write callback, and what the close and EOF outputs do to the transport (`tls/_handshake.py:91-93`, `127-153`). These are crypto and I/O. An output is modelled as its name and the arguments passed to it, appended to the trace.
- The decorator mechanics of `HypotheticalStateMachine` and the composition musings in its docstring (`tls/_handshake.py:3-54`). There is no implementation of them. The model uses explicit tables, a validator and a composition function.
- `example_usage` (`tls/_handshake.py:384-390`). It is an unfinished sketch: it calls `receive_finished()` without its `data` argument, in `wait_1`, where the table has no row for it.
- How the session cache answers a lookup. `id_found_somehow` and `id_not_found_somehow` are inputs, and `session_id` is opaque bytes.
- The meaning of a call the table does not list. The engine's behaviour for that is not written in the source. The model's answer is that nothing runs, including the input's own body, and the state is kept. `Fire` reports this as `Unhandled`.
- Handshake.Connection.Fire: requires an input of the connection's role, called with exactly its declared keyword arguments. A Python call with the wrong arguments would raise `TypeError`, which is not modelled.
- `tls.message` and `tls.hello_message` are not part of this model. Their parsers are modelled only through the byte layouts the tests fix, together with section 7.4 of RFC 5246 for the parts the tests do not show.
- Message.ParseBody: requires a parsed body to fill its `length` exactly. A short or overlong body is `Malformed`. The vectors only show bodies that fit exactly.
- Message.ParseClientHello: the extensions block is always present. RFC 5246 allows a ClientHello that omits it, but the vectors always carry it.
- Message.ParseHandshakeWritten: covers messages with a body. A recognised type with no body parser, such as ServerKeyExchange, keeps no bytes in its record, so it cannot be written back. `MessageVectors.ServerKeyExchangeVector` and `Message.ParseBodyRead` state how it is read.
- Wire.TruncatedEncodingRejected: proves that a truncated encoding fails, but not with which error kind.
- Message.DecodeHandshakeType: also recognises the types of section 7.4 of RFC 5246 that the vectors do not show (15, 16 and 20). Each reads with no body, as ServerKeyExchange does.
- The `os.urandom` call of the premaster-secret test (`tls/test/test_message.py:78-79`). The vector lemma holds for every 46-byte value.
- Integer widths are explicit: every length field is bounded by `Pow256(width)`. A value too wide for its field is excluded by the validity predicates; it is never silently truncated.
