# Verified models of the robot's decoders and of its CMSIS code

This project models the parts of the robot's software whose correctness is not visible from one
function body: the fixed-point kernel of CMSIS-DSP, the Cortex-A translation-table and
interrupt-controller code, and the decoders for the encoder, the PS4 controller, the yaw sensor and
the range sensor. Each module is one component; methods that change state in place are proved
against functions of the old state, and the properties of those functions are proved as lemmas over
every input, every run or every byte stream.

Numbers are unbounded integers; every cast, wrap-around, floor shift and truncating division of the
source is written out. `Bits.dfy` holds bitwise operations on numbers and two's complement views.

| module | component |
|---|---|
| `Descriptors` | short-descriptor attribute setters and builders, on 32-bit words |
| `TranslationTables` | the three table writers against the hardware table walk |
| `DescribedRegions` | builders and writers composed: the walk returns what the builder achieved |
| `InterruptController` | GIC bring-up over the distributor and CPU interface registers |
| `FixedPoint`, `Reciprocal`, `Pid`, `Interpolation`, `Clarke`, `Lanes`, `CircularBuffer` | arm_math.h |
| `Quadrature` | the encoder's X2 and X4 decoding and its index pulse |
| `FrameReceiver` | the controller's byte-at-a-time frame parser |
| `YawUnwrap` | the unbounded yaw angle from residues modulo 255 |
| `RangeSensor` | the range sensor's start-up and configuration upload |

Where the code and its comments disagree, the model follows the code:

- `QEI.cpp` calls 00, 01, 11, 10 the negative direction; the code counts it up in both encodings.
- The descriptor builders pass privileged and user access in exchanged order, outer WB_NO_WA sets the
  bit of WB_WA, and DEVICE memory is encoded as strongly ordered; `Descriptors` states exactly
  which regions come out as requested.
- `clip_q31_to_q7` tests 24 bits where 8 are meant, so it wraps values in between.
- `arm_clarke_q31` is documented as free of overflow; its second product overflows for large Ib. `Clarke`
  states exactly which currents survive the round trip.
- The circular write hands its offset back through 16 bits, and its comment speaks of negative increments,
  which nothing wraps; `CircularBuffer` states exactly when runs and increments are safe.
- `arm_pid_q31` is documented as saturating its output; the output wraps. `Pid` states exactly when a step
  still agrees with the saturated sum, and an input where it does not.
- `VL53L1X::begin` says it polls bit 0 of FIRMWARE__SYSTEM_STATUS (register 0xE5, one byte). Its 16-bit
  reading puts that byte on top and tests bit 0 of FIRMWARE__MODE_STATUS (0xE6); `RangeSensor` gives devices
  on which the two verdicts differ and the exact condition under which they agree.
- It says it sets 2.8 V mode, bit 0 of PAD_I2C_HV__EXTSUP_CONFIG (0x2E, one byte). Its 16-bit write puts 0
  there and sets bit 0 of GPIO_HV_PAD__CTRL (0x2F), so the mode is never set by it; the upload that follows
  then writes both registers from the block.

## Model

| member | source | states |
|---|---|---|
| Descriptors.HonouredExactlyWhenExpressible | mbed-os/cmsis/core_ca.h:1800-1870 | a region's attributes come out as requested if and only if privileged and user access agree, memory is not DEVICE, outer policy of normal memory is not WB_NO_WA, and the domain is below 16 |
| Descriptors.BuiltMeaning | mbed-os/cmsis/core_ca.h:1800-1870 | what the exchange of privileged and user access comes to, pair by pair: privileged-only regions are granted to nobody, user-only regions to privileged mode alone, unequal access to nobody; and each memory type, outer policy and domain |
| Descriptors.GetSectionDescriptor | mbed-os/cmsis/core_ca.h:1800-1816 | the word is a plain section with a free address field; decoding it, user mode gets access only where both levels ask for the same, privileged mode alone exactly where user mode alone is asked for, WB_NO_WA outside comes out as WB_WA, DEVICE as strongly ordered and the domain modulo 16; the attributes are the requested ones exactly for expressible regions |
| Descriptors.GetPageDescriptor | mbed-os/cmsis/core_ca.h:1827-1870 | both words have the type of the page size and free address fields and decode to the same attributes as a section, each clause stated of the decoded words; the section case leaves two fault words |
| Descriptors.GetSmallPageDescriptor | mbed-os/cmsis/core_ca.h:1834-1847 | the 4 KB arm: first-level word fixed by domain, parity and security alone, pair decoding to the achieved attributes |
| Descriptors.GetLargePageDescriptor | mbed-os/cmsis/core_ca.h:1849-1862 | the 64 KB arm, with TEX and XN in their large-page positions |
| Descriptors.MemorySection | mbed-os/cmsis/core_ca.h:1672-1721 | TEX, C, B decode to the memory type (WB_NO_WA outside becoming WB_WA, DEVICE becoming strongly ordered); no other bit moves |
| Descriptors.MemoryPage | mbed-os/cmsis/core_ca.h:1733-1791 | the same in both page layouts; the 64 KB case also clears the small-page TEX bits |
| Descriptors.MemorySmallPage | mbed-os/cmsis/core_ca.h:1744-1788 | the 4 KB arm of the page setter |
| Descriptors.MemoryLargePage | mbed-os/cmsis/core_ca.h:1735-1741 | its 64 KB arm: both attribute masks, then the section encoding |
| Descriptors.InnerPolicy | mbed-os/cmsis/core_ca.h:1691-1704 | the switch sets the policy's number in C and B, in both layouts |
| Descriptors.OuterPolicySection | mbed-os/cmsis/core_ca.h:1705-1718 | the switch sets the policy's number in TEX, WB_NO_WA getting that of WB_WA |
| Descriptors.OuterPolicyPage | mbed-os/cmsis/core_ca.h:1773-1786 | the same in the small-page layout |
| Descriptors.APSection | mbed-os/cmsis/core_ca.h:1464-1489 | AP decodes, in the simplified and in the full access model, to the requested grant or to no access when the model has no such grant; no other bit moves |
| Descriptors.APPage | mbed-os/cmsis/core_ca.h:1594-1619 | the same in the page layout |
| Descriptors.XNSection | mbed-os/cmsis/core_ca.h:1420-1425 | sets XN and frames every other bit |
| Descriptors.DomainSection | mbed-os/cmsis/core_ca.h:1434-1439 | sets the domain modulo 16 and frames every other bit (MMU_DomainPage uses the same bits) |
| Descriptors.PSection | mbed-os/cmsis/core_ca.h:1448-1453 | sets the parity bit and frames every other bit (also MMU_PPage) |
| Descriptors.SharedSection | mbed-os/cmsis/core_ca.h:1498-1503 | sets S and frames every other bit |
| Descriptors.GlobalSection | mbed-os/cmsis/core_ca.h:1512-1517 | sets nG and frames every other bit |
| Descriptors.SecureSection | mbed-os/cmsis/core_ca.h:1526-1531 | sets NS and frames every other bit |
| Descriptors.XNPage | mbed-os/cmsis/core_ca.h:1542-1555 | sets XN where the page size puts it and frames every other bit |
| Descriptors.SharedPage | mbed-os/cmsis/core_ca.h:1628-1633 | sets S and frames every other bit |
| Descriptors.GlobalPage | mbed-os/cmsis/core_ca.h:1642-1647 | sets nG and frames every other bit |
| Descriptors.SecurePage | mbed-os/cmsis/core_ca.h:1656-1661 | sets NS of the first-level word and frames every other bit |
| Descriptors.SectionFields | mbed-os/cmsis/core_ca.h:1802-1813 | the eight section setters occupy disjoint fields, so each field survives the setters after it |
| Descriptors.SectionLayout | mbed-os/cmsis/core_ca.h:1104-1131 | the bits in which the hardware finds each attribute of a section are those of the source's masks, with one word of each kind of memory decoded |
| Descriptors.PageLayout | mbed-os/cmsis/core_ca.h:1133-1182 | the same for both page formats and their first-level word |
| Descriptors.CopyingSettersIdempotent | mbed-os/cmsis/core_ca.h:1420-1661 | the contracts of the setters that copy a field leave one result, so repeating such a setter changes nothing |
| Descriptors.MemorySettersIdempotent | mbed-os/cmsis/core_ca.h:1672-1791 | the same for the memory types, in both layouts |
| Descriptors.AccessSettersIdempotent | mbed-os/cmsis/core_ca.h:1477-1489 | the same for the access permissions of the simplified model, in both layouts |
| Descriptors.FullAccessSettersIdempotent | mbed-os/cmsis/core_ca.h:1468-1489 | the same for those of the full model, whose two layouts encode read-only differently |
| TranslationTables.IdentityMap | mbed-os/cmsis/core_ca.h:1880-1974 | from empty tables and a 16 KB aligned first-level table, in memory that otherwise holds anything, after any sequence of sound calls on disjoint regions with consistent tables, the hardware walk sends each covered address to itself with its call's attribute bits and every other address faults |
| TranslationTables.EmptyTables | mbed-os/cmsis/core_ca.h:1880-1974 | tables that hold only faults map nothing and keep the plan made from the calls, whatever the rest of memory holds |
| TranslationTables.PlannedIdentityMap | mbed-os/cmsis/core_ca.h:1880-1974 | the same for one address under any plan of the memory map, from any memory that keeps it, which may map addresses already: calls may overlap and repeat elsewhere, and an address of no call keeps its translation |
| TranslationTables.CallFitsPlan | mbed-os/cmsis/core_ca.h:1880-1974 | conditions on the calls alone yield a plan that every call keeps |
| TranslationTables.SectionFoundExactly | mbed-os/cmsis/core_ca.h:1886-1897 | the walk finds a written section as the identity if and only if the first-level table is 16 KB aligned |
| TranslationTables.LargeFoundExactly | mbed-os/cmsis/core_ca.h:1953-1973 | in an otherwise empty map the walk finds 64 KB pages as the identity if and only if the base's 4 KB page begins a 64 KB block; its low twelve bits do no harm |
| TranslationTables.WalkAfterRun | mbed-os/cmsis/core_ca.h:1880-1974 | without disjointness, from any planned memory: the walk after any planned run equals the map in which the last covering call wins and uncovered addresses keep their translation |
| TranslationTables.CallIsOverride | mbed-os/cmsis/core_ca.h:1880-1974 | in any memory reached by planned calls, one more call keeps the plan, maps its own region to itself and changes no other translation |
| TranslationTables.TTSection | mbed-os/cmsis/core_ca.h:1880-1898 | whole memory afterwards: consecutive section entries from the base's index on, each one megabyte further, everything else unchanged |
| TranslationTables.TTPage4k | mbed-os/cmsis/core_ca.h:1910-1934 | whole memory afterwards: one first-level link and consecutive 4 KB entries |
| TranslationTables.TTPage64k | mbed-os/cmsis/core_ca.h:1946-1974 | whole memory afterwards: one first-level link and each 64 KB entry stored sixteen times |
| TranslationTables.Store | mbed-os/cmsis/core_ca.h:1880-1974 | the three writers together do to memory what the run theorems say of a call |
| TranslationTables.Perform | mbed-os/cmsis/core_ca.h:1880-1974 | running a writer on planned memory gives the override of CallIsOverride for every address at once |
| TranslationTables.AlignedTable | mbed-os/cmsis/core_ca.h:1918-1926 | the walk reads the table where the writer stored it if and only if the table is 1 KB aligned |
| TranslationTables.LatestOfDisjoint | mbed-os/cmsis/core_ca.h:1880-1974 | with one covering call, its place in the run does not matter |
| TranslationTables.CoversMeaning | mbed-os/cmsis/core_ca.h:1880-1974 | the addresses of a call as one interval from its base on, for sections, 4 KB and 64 KB pages |
| TranslationTables.MapInNumbers | mbed-os/cmsis/core_ca.h:1880-1974 | a section call, a 4 KB call and a 64 KB call that share a table, from tables of faults: the conditions of IdentityMap hold, and the walk of every address written out |
| DescribedRegions.MapSections | mbed-os/cmsis/core_ca.h:1800-1898 | builder and writer composed: every covered address walks to itself with the attributes the builder achieved for the region; every other address walks as before |
| DescribedRegions.MapSmallPages | mbed-os/cmsis/core_ca.h:1827-1934 | the same for 4 KB pages behind a second-level table |
| DescribedRegions.MapLargePages | mbed-os/cmsis/core_ca.h:1827-1974 | the same for 64 KB pages |
| DescribedRegions.MapAll | mbed-os/cmsis/core_ca.h:1800-1974 | a whole memory map from empty tables, in memory that otherwise holds anything, and conditions on the regions alone: every address of a region walks to itself with the attributes the builder achieved for that region, and every other address faults |
| DescribedRegions.MapRegion | mbed-os/cmsis/core_ca.h:1800-1974 | one region of any size in planned memory, the rest of the map unchanged |
| DescribedRegions.NumberMeaning | mbed-os/cmsis/core_ca.h:1812-1868 | the word that the builders make and the number that the writers take are one binary value |
| DescribedRegions.CarriedOnce | mbed-os/cmsis/core_ca.h:1800-1870 | a translation carries only one set of attributes, so the previous three leave no choice |
| DescribedRegions.SectionNumber | mbed-os/cmsis/core_ca.h:1812-1813 | a built section word meets what the section writer needs of its descriptor: type 2, no address bits, not a supersection |
| InterruptController.Gic.Enable | mbed-os/cmsis/core_ca.h:1044-1048 | for every line count the distributor can report, all accesses stay in the register arrays and every reported line ends disabled at half the probed priority, which is 0x80 - 2^k where all but the k low priority bits exist, PPIs and SPIs level-sensitive 1-N, SPIs on CPU 0, lines beyond the count untouched |
| InterruptController.Gic.DistInit | mbed-os/cmsis/core_ca.h:973-1006 | the distributor half: exactly the shared lines below 32 * (ICDICTR % 32 + 1) are configured, the rest framed except for the probe in line 0 |
| InterruptController.Gic.CPUInterfaceInit | mbed-os/cmsis/core_ca.h:1008-1042 | the private half: exactly lines 0 to 31 are configured |
| InterruptController.HalfOfTopBits | mbed-os/cmsis/core_ca.h:996-1000 | half of a probed mask 0x100 - 2^k, written through that mask, is stored as 0x80 - 2^k |
| InterruptController.Gic.SetLevelModel | mbed-os/cmsis/core_ca.h:916-927 | one line's two-bit field changes, the other 1023 keep theirs |
| InterruptController.Gic.SetPriority | mbed-os/cmsis/core_ca.h:929-934 | one line's byte changes, as far as priority bits exist |
| InterruptController.Gic.GetPriority | mbed-os/cmsis/core_ca.h:936-941 | reads the byte that SetPriority of the same line writes |
| InterruptController.Gic.SetTarget | mbed-os/cmsis/core_ca.h:849-854 | one line's target changes, the others keep theirs |
| InterruptController.Gic.DisableIRQ | mbed-os/cmsis/core_ca.h:901-904 | the write-one register store disables that line and no other |
| InterruptController.MaskedPut | mbed-os/cmsis/core_ca.h:923-926 | clearing with the shifted mask and or-ing the shifted value replaces exactly one field of the word |
| InterruptController.FieldOfPut | mbed-os/cmsis/core_ca.h:923-926 | reading any field after such a replacement |
| FixedPoint.ClipQ63ToQ31IsClamp | mbed-os/cmsis/arm_math.h:526-531 | the sign-comparison trick is the mathematical clamp on all 64-bit values |
| FixedPoint.ClipQ31ToQ15IsClamp | mbed-os/cmsis/arm_math.h:556-561 | the same for the 16-bit clip |
| FixedPoint.SumsSaturate | mbed-os/cmsis/arm_math.h:941-957 | so the saturating 32-bit sum and difference are the clamped ones |
| FixedPoint.ClipQ31ToQ7ClampsExactly | mbed-os/cmsis/arm_math.h:546-551 | the 8-bit clip clamps if and only if the value fits, lies beyond 24 bits, or happens to carry the bound in its low byte |
| FixedPoint.ClipQ31ToQ7Wraps | mbed-os/cmsis/arm_math.h:546-551 | an input on which the 8-bit clip fails: 200 becomes -56 |
| FixedPoint.Mult32x64IsFloor | mbed-os/cmsis/arm_math.h:567-573 | the two half products and their sum fit 64 bits and give the exact floor of x*y/2^32 |
| Reciprocal.CountLeadingZeros | mbed-os/cmsis/arm_math.h:585-598 | on every nonzero word the loop gives the count that brackets the word between powers of two |
| Reciprocal.LoopEndsExactly | mbed-os/cmsis/arm_math.h:588-595 | the loop's guard fails at some iteration if and only if the word is nonzero |
| Reciprocal.NewtonConverges | mbed-os/cmsis/arm_math.h:636-643 | on a normalised operand the step neither wraps nor clips, its product with the operand stays at most 2^61, and an error e becomes at most e^2/2^61 + 2^33 |
| Reciprocal.TwoSteps | mbed-os/cmsis/arm_math.h:636-643 | two steps leave an error below the fourth power of the seed's plus truncation, written out, from any nonnegative seed |
| Reciprocal.SevenBitSeedSuffices | mbed-os/cmsis/arm_math.h:636-643 | a seed good to seven bits ends within 2^34 + 2^21 + 1 of 2^61 |
| Reciprocal.RecipQ31 | mbed-os/cmsis/arm_math.h:605-650 | for positive input the shift returned normalises it into [2^30, 2^31) and the result approximates its reciprocal with the bound of TwoSteps, hence within 2^34 + 2^21 + 1 of 2^61 from a table entry good to seven bits; negative inputs get a positive result |
| Reciprocal.NegativeOperandStaysPositive | mbed-os/cmsis/arm_math.h:619-643 | the residual of a negative operand wraps, so a positive estimate stays positive through every step |
| Reciprocal.LeadingZerosNormalise | mbed-os/cmsis/arm_math.h:615-625 | shifting by one less than the leading zeros normalises either sign |
| Reciprocal.OneStep | mbed-os/cmsis/arm_math.h:638-642 | the loop body's unsigned wrap and clip are the step that the convergence lemmas speak about |
| Pid.IncrementalIsPositional | mbed-os/cmsis/arm_math.h:4821-4826 | for every input history, the accumulated increments with the derived gains are exactly Kp*x[n] + Ki*sum(x) + Kd*(x[n] - x[n-1]) |
| Pid.TextbookForm | mbed-os/cmsis/arm_math.h:4821-4826 | the same in numbers for the last two samples and the sum of all, with the documented gains |
| Pid.TruncationLoss | mbed-os/cmsis/arm_math.h:4927-4930 | truncating each increment loses between 0 and unit - 1 per sample over the whole run |
| Pid.OutputMeaning | mbed-os/cmsis/arm_math.h:4910-4939 | while no increment overflows the accumulator, after any number of samples the output is the sum of the truncated increments if and only if that sum fits 32 bits, and output times 2^31 is then below the positional value by at most n*(2^31 - 1); a positional value in range makes it fit |
| Pid.StepSaturatesExactly | mbed-os/cmsis/arm_math.h:4908-4930 | one step, whether the accumulator wrapped or not, gives the saturated sum that the documentation promises if and only if the sum fits 32 bits or is the single value -0x180000000 |
| Pid.OutputWraps | mbed-os/cmsis/arm_math.h:4908-4930 | an input where it does not: full integral gain and two full-scale samples give -4, without accumulator overflow |
| Pid.PidQ31.Process | mbed-os/cmsis/arm_math.h:4910-4939 | after every sample the state holds the last two inputs and, modulo 2^32, the sum of the truncated increments of the whole history; the output is the wrapped increment plus the last output, wrapped |
| Pid.DeliveredWhenItFits | mbed-os/cmsis/arm_math.h:4917-4927 | without 64-bit overflow the accumulator delivers the exact truncated increments |
| Pid.SmallGainsFit | mbed-os/cmsis/arm_math.h:4904-4907 | gains whose magnitudes sum below 2^32 never overflow the accumulator, on any history |
| Pid.PidQ15.Process | mbed-os/cmsis/arm_math.h:4957-4997 | after every sample the state is the saturated accumulation of the whole history; the output is the increment plus the last output, clamped, and no product or sum leaves its type |
| Pid.UnsaturatedIsTruncated | mbed-os/cmsis/arm_math.h:4984-4988 | while no partial sum leaves 16 bits, saturation never acts over the whole run |
| Interpolation.InterpolationIsAccurate | mbed-os/cmsis/arm_math.h:5571-5613 | for every nonempty table and every 32-bit argument reads stay in the table, the ends clamp, and in between the result is within five units below and one above the exact interpolation and between the neighbours to the same extent |
| Interpolation.BlendIsAccurate | mbed-os/cmsis/arm_math.h:5605-5611 | no cast, sum or final doubling overflows for an even fraction |
| Interpolation.SplitArgument | mbed-os/cmsis/arm_math.h:5584-5598 | masking and shifting give the floor index and the 31-bit fraction, also for negative arguments |
| Clarke.RoundTrip | mbed-os/cmsis/arm_math.h:5095-5211 | with Ib within the limit and a forward sum from four below to two above the 32-bit range, the inverse returns Ia exactly and Ib within four units |
| Clarke.RoundTripExactly | mbed-os/cmsis/arm_math.h:5095-5211 | for all currents: Ib comes back within four units if and only if it is within the limit and, where the forward sum saturates, Ib + Ia/2 stays within what the bound carries back |
| Clarke.ProductsFitExactly | mbed-os/cmsis/arm_math.h:5107-5110 | the first product never overflows its cast; the second does if and only if Ib exceeds 1859775393 in magnitude |
| Clarke.Roots | mbed-os/cmsis/arm_math.h:5107-5110 | the constants are 1/sqrt(3), 2/sqrt(3) and sqrt(3)/2, each to the last bit below (the second twice the first) |
| Clarke.ForwardMeaning | mbed-os/cmsis/arm_math.h:5095-5114 | Ialpha is Ia, and Ibeta is (Ia + 2 * Ib)/sqrt(3) to within two units below, with the constants of Roots, where nothing overflows |
| Clarke.InverseMeaning | mbed-os/cmsis/arm_math.h:5192-5211 | Ib is -Ialpha/2 + sqrt(3)/2 * Ibeta to within a unit, with its constant, where that fits |
| Clarke.RoundTripFailsBeyondLimit | mbed-os/cmsis/arm_math.h:5095-5211 | above that limit Ib never comes back within four units, saturated or not |
| Clarke.RoundTripFailsWhenSaturated | mbed-os/cmsis/arm_math.h:5113-5210 | nor does it when the forward sum lies five or more above or six or more below the 32-bit range |
| Lanes.SSat | mbed-os/cmsis/arm_math.h:708-740 | the doubling loop and one comparison clamp to y signed bits, for every width from 1 to 32 |
| Lanes.SaturationsAgree | mbed-os/cmsis/arm_math.h:759-797 | the saturation of byte and half lanes is that of SSat at widths 8 and 16 |
| Lanes.QAdd8 | mbed-os/cmsis/arm_math.h:753-765 | each byte of the result is the clamped sum of the two signed bytes in its place |
| Lanes.QSub8 | mbed-os/cmsis/arm_math.h:771-783 | each byte is the clamped difference |
| Lanes.QAdd16 | mbed-os/cmsis/arm_math.h:789-800 | each half is the clamped sum |
| Lanes.ShAdd16 | mbed-os/cmsis/arm_math.h:806-816 | each half is the floor-halved sum |
| Lanes.QSub16 | mbed-os/cmsis/arm_math.h:822-832 | each half is the clamped difference |
| Lanes.ShSub16 | mbed-os/cmsis/arm_math.h:838-848 | each half is the floor-halved difference |
| Lanes.QAsx | mbed-os/cmsis/arm_math.h:854-864 | with y's halves exchanged: clamped difference below, clamped sum above |
| Lanes.ShAsx | mbed-os/cmsis/arm_math.h:870-880 | with y's halves exchanged: halved difference below, halved sum above |
| Lanes.QSax | mbed-os/cmsis/arm_math.h:886-896 | with y's halves exchanged: clamped sum below, clamped difference above |
| Lanes.ShSax | mbed-os/cmsis/arm_math.h:902-912 | with y's halves exchanged: halved sum below, halved difference above |
| Lanes.TakenApart | mbed-os/cmsis/arm_math.h:759-762 | shifting left and back right takes out the signed bytes of a word |
| Lanes.HalvesTakenApart | mbed-os/cmsis/arm_math.h:796-797 | and the signed halves |
| Lanes.BytesMeaning | mbed-os/cmsis/arm_math.h:759-762 | the bytes lie in the signed range of their width and are the word's digits to base 256 |
| Lanes.HalvesMeaning | mbed-os/cmsis/arm_math.h:796-797 | the halves likewise to base 65536 |
| Lanes.BytesOfPacked | mbed-os/cmsis/arm_math.h:759-764 | masking, shifting and or-ing four values gives a word whose bytes are those values, none leaking into another |
| Lanes.HalvesOfPacked | mbed-os/cmsis/arm_math.h:796-799 | the same for two halves |
| CircularBuffer.CircularWrite | mbed-os/cmsis/arm_math.h:5986-6024 | whole buffer and offset after a strided block write, for every increment of either sign whose cells exist, with the offset cut to 16 bits; with increment 1 and at most L samples, the k-th cell ahead of the offset holds src[start + k * srcInc] and no other cell moves |
| CircularBuffer.CircularRead | mbed-os/cmsis/arm_math.h:6030-6080 | whole destination and offset after a block read, for the same increments, with the destination wrapping at its end; with increments from 0 to L and destination increment 1, the k-th cell ahead of the start holds the buffer's cell (offset + k * inc) modulo L |
| CircularBuffer.InsideExactly | mbed-os/cmsis/arm_math.h:6013-6016 | which increments stay in the buffer: all from 0 to L, a negative one if and only if it never passes cell 0, one beyond L if and only if its excess does not climb out |
| CircularBuffer.BackwardLeaves | mbed-os/cmsis/arm_math.h:6013-6016 | two samples with increment -1 from cell 0 leave it |
| CircularBuffer.RunIsDelayLine | mbed-os/cmsis/arm_math.h:5986-6024 | for L up to 65536, after any sequence of calls the last min(L, total) samples sit in order behind the returned offset, which is the total modulo L |
| CircularBuffer.RunsAreDelayLinesExactly | mbed-os/cmsis/arm_math.h:5986-6024 | every sequence of calls does so if and only if L is at most 65536 |
| CircularBuffer.OffsetLost | mbed-os/cmsis/arm_math.h:6022-6023 | beyond that, one block of 65536 samples sends the offset back to 0 |
| CircularBuffer.WriteAppends | mbed-os/cmsis/arm_math.h:6005-6020 | from any delay line the loop, before its offset is cut, appends the block to the history |
| CircularBuffer.CallAppendsExactly | mbed-os/cmsis/arm_math.h:5986-6024 | a call appends it if and only if the offset to be returned fits 16 bits |
| CircularBuffer.WrittenCell | mbed-os/cmsis/arm_math.h:6005-6020 | a block of at most L samples lands in the cells ahead of the offset and moves no other |
| CircularBuffer.WrittenLast | mbed-os/cmsis/arm_math.h:6005-6020 | for every increment from 0 to L a cell holds the last sample put into it |
| CircularBuffer.Untouched | mbed-os/cmsis/arm_math.h:6005-6020 | and a cell that no step of the walk touches keeps its contents |
| CircularBuffer.StridedCell | mbed-os/cmsis/arm_math.h:6008-6011 | the k-th sample of a block is the source's cell start + k * inc, which exists |
| CircularBuffer.InBoundsExactly | mbed-os/cmsis/arm_math.h:6008-6011 | a strided walk stays in an array if and only if its first and its last cell do |
| CircularBuffer.DelayLineMeaning | mbed-os/cmsis/arm_math.h:5986-6024 | in a delay line sample number j, while still held, sits in cell j modulo L |
| CircularBuffer.ReadBack | mbed-os/cmsis/arm_math.h:5986-6080 | reading where a block of at most L samples was written returns that block |
| CircularBuffer.SampleCell | mbed-os/cmsis/arm_math.h:6051-6075 | the k-th sample read comes from cell (offset + k * inc) modulo L |
| CircularBuffer.StoredCell | mbed-os/cmsis/arm_math.h:6053-6062 | a circular destination takes the samples in order from its start on and moves no other cell |
| Quadrature.Qei.constructor | QEI/QEI.cpp:131-169 | count and revolutions zero, both states the sampled pins, stored revolution size doubled for X4 |
| Quadrature.Qei.Encode | QEI/QEI.cpp:245-291 | X4 counts the signed step along the Gray cycle and ignores two-bit jumps; X2 counts opposite samples by whether the channels agree |
| Quadrature.Qei.Index | QEI/QEI.cpp:293-315 | the count becomes, with the source's wraps, the nearest whole number of revolutions from the first index, which it records; a negative revolution size displaces it |
| Quadrature.Qei.Reset | QEI/QEI.cpp:171-178 | count and revolutions zero, next index is a first one |
| Quadrature.X2NeverDrifts | QEI/QEI.cpp:255-270 | after every walk of single steps with any reversals the count is the true number of A edges, corrected only by whether the channels agreed at the first and the last sample |
| Quadrature.X2WithinOne | QEI/QEI.cpp:255-270 | after walks of any length the count is floor(q/2) - floor(q0/2), off by at most one with the difference given, if and only if that value fits the counter |
| Quadrature.X4IsDisplacement | QEI/QEI.cpp:272-287 | on every such walk the X4 count is the displacement |
| Quadrature.Drive | QEI/QEI.cpp:156-163 | an object whose interrupts run on the sampled and not missed edges ends as the ride does |
| Quadrature.Turn | QEI/QEI.cpp:156-163 | an object that misses none ends as the walk of the drift theorems does |
| Quadrature.X4Conserves | QEI/QEI.cpp:272-289 | on arbitrary samples, count plus twice the two-bit jumps follows the Gray index modulo 4, through any wrap |
| Quadrature.X2AgainstX4 | QEI/QEI.cpp:255-289 | on the same walk, of any length, twice the X2 count stays within three of the X4 count while the displacement fits the counter |
| Quadrature.X2Branches | QEI/QEI.cpp:258-270 | the source's four state comparisons are the X2 rule |
| Quadrature.X4Branches | QEI/QEI.cpp:275-284 | the source's XOR of previous right bit and current left bit is the signed Gray step |
| Quadrature.DeltaTable | QEI/QEI.cpp:255-287 | what each pair of samples counts in both encodings |
| Quadrature.WalkMeaning | QEI/QEI.cpp:156-163 | a walk samples every edge for X4 and the edges of channel A for X2, by the parity of the position |
| Quadrature.RideMeaning | QEI/QEI.cpp:156-163 | a missed edge moves the shaft alone and is counted as missed where the decoder would have sampled |
| Quadrature.IndexCancelsErrors | QEI/QEI.cpp:245-315 | decoder and index together: if the edges missed in each lap cost less than half a revolution and the laps' marks lie in the counter's range, the count is right after every index pulse, for any number of laps, in both encodings |
| Quadrature.LapThatFits | QEI/QEI.cpp:245-315 | a lap of five counts that loses two to a missed edge meets the conditions, and its index pulse restores them |
| Quadrature.MiscountBound | QEI/QEI.cpp:245-291 | any ride miscounts by at most two for each edge it misses, plus one for X2 and two for a start out of step |
| Quadrature.MiscountAttained | QEI/QEI.cpp:272-289 | two counts for one missed edge do occur |
| Quadrature.SampleStep | QEI/QEI.cpp:255-287 | one sample after missed edges counts what the shaft did since the last sample up to twice those edges |
| Quadrature.IndexRecovers | QEI/QEI.cpp:293-315 | within the counter's range an index makes a count less than half a revolution off right, through the wraps |
| Quadrature.IndexKeepsExactly | QEI/QEI.cpp:293-315 | an index leaves a count alone if and only if its wrapped distance to the first index is a whole number of revolutions |
| Quadrature.IndexPastTheRange | QEI/QEI.cpp:293-315 | past the range it need not be: 2982617 revolutions of 720 without any miscount |
| Quadrature.Spin | QEI/QEI.cpp:245-315 | a decoder object driven over such laps ends every one at the true count |
| Quadrature.SnapIsNearest | QEI/QEI.cpp:300-313 | an index moves the count to a whole number of revolutions from the first index, by at most half a revolution, and on a tie toward the first index |
| Quadrature.SnapRecovers | QEI/QEI.cpp:300-313 | a count less than half a revolution off becomes exact |
| Quadrature.SnapIdempotent | QEI/QEI.cpp:300-313 | a second index changes nothing |
| Quadrature.RoundedIsNearest | QEI/QEI.cpp:301-311 | adjusting C quotient by C remainder is rounding to nearest with ties toward zero, for both signs |
| Quadrature.TruncMeaning | QEI/QEI.cpp:301-303 | quotient and remainder are those of C, the remainder having the sign of the dividend |
| Quadrature.RoundedIsDisplaced | QEI/QEI.cpp:301-311 | with a negative revolution size the same code overshoots zero by a revolution |
| Quadrature.DisplacedMeaning | QEI/QEI.cpp:301-311 | beyond size 1 that is a multiple of the size between one and two revolutions away from the count, upwards for counts up to zero |
| Quadrature.NegativeSizeSpoils | QEI/QEI.cpp:301-313 | so it leaves a count alone if and only if the size is -1 |
| FrameReceiver.Receiver.constructor | PS4Serial/PS4Serial.cpp:3-7 | the initial vector, 127 in bytes 2 to 5 and 0 in the others, and the state of an empty stream |
| FrameReceiver.Receiver.WirelessRecive | PS4Serial/PS4Serial.cpp:9-30 | after every byte the fields are the declarative reading of the whole stream: last accepted frame, collected bytes, their sum |
| FrameReceiver.SnapshotIsLastFrame | PS4Serial/PS4Serial.cpp:14-28 | for every stream the snapshot is the initial vector and no frame ever closed, or the payload of the frame closed last |
| FrameReceiver.AcceptedIsFrame | PS4Serial/PS4Serial.cpp:14-28 | an accepted byte closes eight non-sync bytes after a sync byte or the stream's start, with no sync between and their sum modulo 128 |
| FrameReceiver.FrameIsAccepted | PS4Serial/PS4Serial.cpp:14-28 | conversely every such frame is accepted |
| FrameReceiver.FrameStartMeaning | PS4Serial/PS4Serial.cpp:14-17 | the frame under way begins after the last sync byte, the stream's start counting as one |
| FrameReceiver.Resynchronises | PS4Serial/PS4Serial.cpp:14-28 | after any garbage a good frame leaves exactly its bytes, and later bytes before the next sync cannot change them |
| FrameReceiver.SingleByteErrors | PS4Serial/PS4Serial.cpp:18-27 | one altered payload byte passes the old checksum if and only if the alteration is a multiple of 128 |
| YawUnwrap.Yaw.IntReceive | Serial6050/Serial6050.cpp:24-38 | after every byte the angle is, modulo 2^32, the one rebuilt from all bytes so far |
| YawUnwrap.Yaw.Reset | Serial6050/Serial6050.cpp:40-43 | the reference becomes the angle rebuilt from the bytes so far |
| YawUnwrap.Yaw.Read | Serial6050/Serial6050.cpp:47-50 | a tenth of the rebuilt displacement since the reset |
| YawUnwrap.FollowsTrueAngle | Serial6050/Serial6050.cpp:26-37 | if bytes carry an integer angle modulo 255 that changes by at most 127 a sample, the rebuilt angle follows it exactly |
| YawUnwrap.FollowedExactly | Serial6050/Serial6050.cpp:26-37 | over a whole stream the rebuilt angle follows the true one through every sample if and only if the angle never changes by more than 127 a sample |
| YawUnwrap.ChangeIsTrueExactly | Serial6050/Serial6050.cpp:29-37 | one sample's rebuilt change is the true one if and only if that is at most 127 in magnitude |
| YawUnwrap.DisplacementIsTrue | Serial6050/Serial6050.cpp:24-50 | between a reset and any later byte the rebuilt displacement is the true one |
| YawUnwrap.ArbitraryBytes | Serial6050/Serial6050.cpp:26-37 | on any bytes the angle keeps the last byte's residue modulo 255, jumps by at most 127, and fits 32 bits for sixteen million bytes; the stored angle keeps the residue if and only if the number of its wraps is a multiple of 255 |
| YawUnwrap.CodeChange | Serial6050/Serial6050.cpp:29-37 | the two comparisons with 127 compute the least change modulo 255 |
| RangeSensor.Sensor.Begin | VL53L1X/VL53L1X.cpp:33-68 | succeeds exactly for the right model (0xEA and 0xCC in registers 0x10F and 0x110) whose polled bit is set within 101 readings; on success registers 1 to 36 keep their values, 37 to 135 hold the block, the rest is framed, and the 2.8 V bit is the block's; on failure nothing but the reset register has moved; at most 102 readings |
| RangeSensor.Sensor.WaitForFirmware | VL53L1X/VL53L1X.cpp:43-52 | with both status bytes moving freely, outcome and stopping point are those of the mode byte's low bit: the first of 101 readings with it set, else one more is taken and disregarded |
| RangeSensor.VerdictsAgreeExactly | VL53L1X/VL53L1X.cpp:42-52 | outcome and stopping point are the documented ones, those of the boot bit, if and only if the first reading with either bit set, if any, has both |
| RangeSensor.OutcomesAgreeExactly | VL53L1X/VL53L1X.cpp:42-52 | the outcome alone is the documented one if and only if both bits or neither get set in time |
| RangeSensor.BootIsNotPolled | VL53L1X/VL53L1X.cpp:42-52 | a device booted at every reading that is given up after 102, and one never booted that is taken for ready at once |
| RangeSensor.VerdictMeaning | VL53L1X/VL53L1X.cpp:46-52 | polling any bit stops at its first set reading in time, and exactly then succeeds |
| RangeSensor.Sensor.SetPad | VL53L1X/VL53L1X.cpp:54-57 | the write for 2.8 V leaves 0 in the register it names, whatever was there, and sets bit 0 of the register behind it |
| RangeSensor.Sensor.ReadTrims | VL53L1X/VL53L1X.cpp:60-63 | the block's first 36 bytes become registers 1 to 36, its tail and the device unchanged |
| RangeSensor.Sensor.StartMeasurement | VL53L1X/VL53L1X.cpp:71-94 | the chunked upload leaves the block in registers 1 to 135 and no other register moved, without a wrap of the eight-bit counters |
| RangeSensor.Sensor.SendChunk | VL53L1X/VL53L1X.cpp:79-89 | one chunk stays in its 32-byte buffer and lands at its own addresses |
| RangeSensor.Sensor.SoftReset | VL53L1X/VL53L1X.cpp:104-109 | the reset register ends at one |
| RangeSensor.Sensor.ReadRegister | VL53L1X/VL53L1X.cpp:257-269 | returns what one transaction finds at the address, moving or not, and changes no register |
| RangeSensor.Sensor.ReadRegister16 | VL53L1X/VL53L1X.cpp:271-288 | returns two registers of one transaction, high byte first, and changes none |
| RangeSensor.Sensor.WriteRegister | VL53L1X/VL53L1X.cpp:290-297 | one register changes |
| RangeSensor.Sensor.WriteRegister16 | VL53L1X/VL53L1X.cpp:299-307 | two registers change, high byte first |
| RangeSensor.Composed | VL53L1X/VL53L1X.cpp:40-65 | reset, pad write, trims and upload as one change of the register file |
| RangeSensor.StartedRegister | VL53L1X/VL53L1X.cpp:40-65 | each register after start-up: 1 in register 0, 1 to 36 as before, 37 to 135 from the block, the others as before |
| RangeSensor.PadSettingExactly | VL53L1X/VL53L1X.cpp:55-65 | after start-up the 2.8 V bit, bit 0 of register 0x2E, is set if and only if the block's byte for 0x2E has it; likewise for the register behind it |
| RangeSensor.PadSettingIsOff | VL53L1X/VL53L1X.cpp:7-25 | with the default block both registers end at zero |

## Left out

- Descriptors: descriptor words are passed and returned instead of written through pointers, so two
  outputs at one address are not modelled; the return value 0 is dropped.
- TranslationTables: word alignment is built into word indices; supersections, a split between two base
  registers and wrap-around past the last megabyte are outside the model; so is cache and TLB maintenance.
- TranslationTables.WalkAfterRun: over one run a megabyte is used for sections or for one second-level table,
  and a 64 KB block for one page size; calls may overlap and repeat within that.
- InterruptController: registers are sequences and `enabled` stands for the set and clear registers; a
  reserved target byte reads back as written; GIC_SetICDICFR and the pending and active registers are
  not part of this model.
- InterruptController.Gic.DisableIRQ: every enable bit is writable and every line number up to 1023 is a line;
  IHI 0048B leaves the enable bits of the software interrupts 0 to 15 implementation defined, so on some
  controllers those lines stay enabled after Enable, and reserves lines 1020 to 1023.
- InterruptController.Gic.Enable: half priority is what the implemented bits can hold of it, because the
  write goes through the same bits as the probe.
- Reciprocal.RecipQ31: zero (the source's loop never ends) and the least 32-bit integer (it has no positive
  counterpart) are not admitted; the seed table is a parameter because it is not part of this model.
- Reciprocal.CountLeadingZeros: zero is not admitted, because the loop never ends on it (LoopEndsExactly).
- CircularBuffer.CircularWrite: source and buffer do not overlap, and the 32-bit sum of offset and increment,
  which only buffers beyond 2^30 cells could overflow, is unbounded.
- CircularBuffer.CircularRead: the same, and the pointer-to-integer cast of the destination's end is an index.
- Pid: the initialisation functions have no body in the repository; the gains are the documented ones. The
  variant of the 16-bit controller for DSP instructions is not modelled.
- Quadrature.Qei.Index: a revolution size of zero is outside the contract, because the source divides by it.
- Quadrature: interrupt attachment is modelled by which edges are sampled; an interrupt that comes late, after
  further edges, is modelled as missed edges before it.
- YawUnwrap: the previous byte is static in the source and shared by all objects; one object is modelled.
- YawUnwrap.Yaw.Read: a real number, without the rounding to `float`.
- RangeSensor: bus errors, waits and printing are dropped, and only the two firmware status registers move by
  themselves, once a transaction that reads either; register addresses stay below 0xFFFE.
- clip_q63_to_q15, arm_recip_q15, bilinear and floating-point interpolation: their casts and edge indices meet
  no useful specification.
- Trigonometry, Park transforms with real sines, and the prototypes of arm_math.h without bodies.
- Motion scripts, button getters, display, bus, analog and network wrappers, and the core_armv8mbl.h accessors:
  they would only add easy members.
