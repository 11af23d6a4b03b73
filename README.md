# LoanChatBot backend services in Dafny

This project models the three service modules behind the LoanChatBot API, and proves properties of each.

- **Loan catalog and eligibility evaluator** (`LoanService`). The catalog is listed as it is stored. A loan type is looked up by name, ignoring case. The applicant's age, income and CIBIL score are then checked against the policy in that order, and the first failing check decides the verdict. An eligible applicant is offered the smaller of half a year's income and the policy's maximum amount.
- **EMI calculator** (`EmiService`). This is the reducing-balance installment formula over exact reals, with a monthly rate of `annual_rate / 1200` and `tenure_years * 12` installments. The totals are derived from the installment, and each figure is rounded to two decimals on its own.
- **Per-session chat history** (`ChatService`). This is a class holding a map from session key to the list of role/content entries, updated in place.
  - A call ignores a blank message.
  - Otherwise it picks the session key, appends the stripped user message and keeps only the last 20 entries.
  - It then asks the language model for a reply, or uses a fixed fallback when the call fails, and appends that reply as an assistant entry.
  - Clearing a session removes its key.
- `Text` holds the Python string operations these rely on: `str.strip` with Python's whitespace set, and `str.lower`. `Wrappers` holds `Option`.

The pure functions `Turn` (one chat call on a value of the map) and `EvaluateEligibility` are the specifications. The methods `GetChatbotResponse` and `Chat` of `ChatService.SessionStore` are proved to change the map and return the reply exactly as `Turn` says. `RecordUserMessage`, the user-entry step inside a call, is tied to the trimming function `Sent`, and `ClearSession` to removing the key from the map. The lemmas then prove what the service promises about `Turn`: other sessions stay untouched, the exchange is appended in order, and the invariant holds (every stored history has 2 to 21 entries, alternating by role from the end).

Where the code and its documentation disagree, the model follows the code:
- The checks run in the order age, income, CIBIL.
- An unknown loan type is an ordinary ineligible verdict carrying the message `Loan type '<name>' not found.`
- The calculator has no zero-rate branch, because the request schema admits only positive rates.
- The offered amount is `income * 12 * 0.5`, that is 6 times the monthly income. A code comment says "10x monthly income", and employment status plays no part.

## Model

| member | source | states |
|---|---|---|
| Text.Strip | app/services/chat_service.py:39 | The stripped text is empty exactly when the message is blank (Python whitespace only), and otherwise it neither starts nor ends with whitespace |
| Text.StripKeepsMiddle | app/services/chat_service.py:46 | `strip` removes only leading and trailing whitespace: the result is a contiguous slice of the input with blank text on both sides |
| Text.StripIdempotent | app/services/chat_service.py:46 | Stripping stripped text changes nothing |
| Text.Lower | app/services/loan_service.py:26 | `lower` keeps the length and lowercases each character on its own |
| Text.LowerIdempotent | app/services/loan_service.py:26 | Lowercasing twice is the same as lowercasing once |
| Text.CaseVariantsCompareEqual | app/services/loan_service.py:26 | Two names that agree at every position, up to an upper-case ASCII letter standing for its lower-case form, compare equal under the lookup's comparison |
| LoanService.GetAllLoans | app/services/loan_service.py:22-23 | One record per catalog entry, the same record, in catalog order |
| LoanService.FindPolicy | app/services/loan_service.py:26 | No policy is found exactly when no catalog entry's type equals the requested name ignoring case; a found policy is in the catalog and matches the name |
| LoanService.FindPolicyPicksFirst | app/services/loan_service.py:26 | When several entries match, the first matching entry in catalog order is used |
| LoanService.LookupIgnoresCase | app/services/loan_service.py:26 | Requests whose loan type differs only in case find the same policy and, when one is found, get the same verdict |
| LoanService.EvaluateEligibility | app/services/loan_service.py:25-48 | An unknown type gives exactly the not-found verdict with no amount. The applicant is eligible exactly when the policy exists and all three checks pass. An amount is present exactly when eligible. The amount is at most the policy cap and at most 6 times the income, and equals one of them |
| LoanService.EvaluateReportsFirstFailure | app/services/loan_service.py:31-38 | For a known type, an ineligible verdict carries the message of the first failing check in the order age, income, CIBIL, whatever the later fields hold; no failing check means the congratulation message |
| LoanService.ThresholdsAreInclusive | app/services/loan_service.py:31-37 | An applicant exactly at the minimum or maximum age, the minimum income and the minimum CIBIL score is eligible |
| LoanService.EmploymentStatusIgnored | app/services/loan_service.py:25-48 | Two requests that differ only in employment status get identical verdicts |
| EmiService.ExactEmi | app/services/emi_service.py:8-14 | For positive principal, rate and tenure, the installment is positive. The total payable is the installment times `tenure*12` and equals the principal plus the total interest, and the interest is positive |
| EmiService.InstallmentRepaysLoan | app/services/emi_service.py:12 | The formula is the reducing-balance level payment: paying it every month at rate `r` leaves a zero balance after exactly `n` months, and no other monthly payment does |
| EmiService.TotalExceedsPrincipal | app/services/emi_service.py:12-14 | For admitted inputs, the installment is positive and `n` installments pay back more than the principal |
| EmiService.GrowthBelowSimpleInterest | app/services/emi_service.py:12 | `(1+r)^n - 1 < n*r*(1+r)^n` for `r > 0`, `n >= 1`, the bound behind a positive total interest |
| EmiService.InstallmentLinearInPrincipal | app/services/emi_service.py:12 | Scaling the principal scales the installment by the same factor |
| EmiService.InstallmentIncreasesWithPrincipal | app/services/emi_service.py:12 | A larger principal gives a strictly larger installment |
| EmiService.Round2 | app/services/emi_service.py:17-19 | The rounded value is a whole number of hundredths, within half a hundredth of the exact value; at an exact tie it is the even hundredth |
| EmiService.RoundFigures | app/services/emi_service.py:16-20 | Each of the three reported figures is within half a hundredth of its exact value |
| EmiService.RoundedTotalsStayClose | app/services/emi_service.py:13-20 | Rounded independently, the reported total differs from the reported installment times the month count by at most half a hundredth per month plus half a hundredth |
| EmiService.RoundingSeparatesTotalFromInstallment | tests/test_emi.py:4-10 | For 100000 at 10% over one year, the figures are 8791.59, 105499.06 and 5499.06, and the reported total is not the reported installment times 12 |
| ChatService.SessionKey | app/services/chat_service.py:43 | The key is the session id when it is present and non-empty, and `__anon__` otherwise; it is never empty |
| ChatService.BlankMessageChangesNothing | app/services/chat_service.py:39-40 | A blank message returns the fixed prompt-for-input reply and leaves every history unchanged |
| ChatService.TurnTouchesOnlyItsSession | app/services/chat_service.py:43-75 | A call leaves every other session's presence and history unchanged |
| ChatService.TurnAppendsExchange | app/services/chat_service.py:43-77 | After a non-blank call, the key's history is a suffix of the old history (empty if absent) plus the stripped user entry and the assistant entry, ends with those two entries and holds one more than the smaller of 20 and the old length plus one, so nothing is cut until the user entry makes the list longer than 20. The reply returned is the assistant entry's content and comes from the trimmed history ending in the user entry |
| ChatService.FailedCallStoresFallback | app/services/chat_service.py:67-75 | When the model call fails, the fixed fallback text is both returned and stored as the last assistant entry |
| ChatService.TurnPreservesWellFormed | app/services/chat_service.py:35-75 | If every stored history has 2 to 21 entries alternating by role from the end, this still holds after any call |
| ChatService.TwoCallsShareHistory | app/services/chat_service.py:43-75 | Two non-blank calls under one key leave both exchanges, in order, as the last four entries of that key's history |
| ChatService.EleventhCallOrphansAnAnswer | app/services/chat_service.py:35-50 | When a session already holds 20 alternating entries, the next call trims away the oldest user message but keeps its answer, so the stored history of 21 entries starts with an assistant entry |
| ChatService.SessionStore.constructor | app/services/chat_service.py:33 | The store starts with no sessions and satisfies the invariant |
| ChatService.SessionStore.RecordUserMessage | app/services/chat_service.py:43-50 | Creates the key's history when missing, appends the user entry and trims to the last 20 entries; the map changes at that key only |
| ChatService.SessionStore.GetChatbotResponse | app/services/chat_service.py:38-77 | The new map and the reply are exactly those of `Turn` on the old map for the session's key, and the invariant is preserved |
| ChatService.SessionStore.ClearSession | app/services/chat_service.py:80-82 | Removes the key if present and changes nothing else; the invariant is preserved |
| ChatService.SessionStore.Chat | app/api/routers/chat.py:9-12 | The id used is the caller's when non-empty and the supplied fresh id otherwise; the call then behaves as `GetChatbotResponse` with that id |

## Left out

- Loading the policy file and the module-level `LOAN_POLICIES` global: the catalog is a parameter.
- The Groq client, the request parameters and the system prompt built from the policies. The model's answer is a function parameter from the history to an optional string, where no string stands for any exception.
- `app/services/dna_service.py`: its scores are produced by a language model, not computed. It is not part of this model.
- HTTP plumbing: FastAPI routing, CORS, settings and logging. UUID generation becomes the `freshId` parameter of `Chat`.
- Concurrency: calls to the shared history map are modelled one at a time.
- Floating point. Values are exact reals, and `round(x, 2)` is modelled as round-half-even to a hundredth of the exact value. It is not modelled on the nearest binary double.
- Text.Lower: handles the ASCII letters only. Python's `str.lower` also lowercases other Unicode letters.
- EmiService.CalculateEmi: carries no contract of its own; its properties are stated on `ExactEmi` and `RoundFigures`, which it composes.
- The second case of `tests/test_emi.py` (240 installments) is not evaluated: the exact rationals are too large for the verifier.
- Monotonicity of the installment in the rate and in the tenure is not proved.
- The chat tests that expect canned keyword replies do not describe the current code, which delegates replies to the language model.
